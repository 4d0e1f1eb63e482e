/** The lines sdssplitargs() accepts, told without a reader: words apart, each plain and then perhaps quoted. */
module SdsFormat {
  import opened CString
  import opened SdsArgs

  // ----- the format -----

  /** What stands for one byte inside double quotes. */
  datatype Piece = Raw(c: char) | Escaped(c: char) | Hex(high: char, low: char)

  function PieceText(p: Piece): string {
    match p
    case Raw(c) => [c]
    case Escaped(c) => ['\\', c]
    case Hex(high, low) => ['\\', 'x', high, low]
  }

  function PieceValue(p: Piece): char
    requires p.Hex? ==> IsHex(p.high) && IsHex(p.low)
  {
    match p
    case Raw(c) => c
    case Escaped(c) => Unescape(c)
    case Hex(high, low) => (16 * HexValue(high) + HexValue(low)) as char
  }

  function PiecesText(ps: seq<Piece>): string { if ps == [] then "" else PieceText(ps[0]) + PiecesText(ps[1..]) }

  predicate TwoHex(t: string) { |t| >= 2 && IsHex(t[0]) && IsHex(t[1]) }

  ghost predicate PieceOk(p: Piece, rest: string) {
    match p
    case Raw(c) => c != '"' && c != '\\'
    case Escaped(c) => c == 'x' ==> !TwoHex(rest)
    case Hex(high, low) => IsHex(high) && IsHex(low)
  }

  ghost predicate PiecesOk(ps: seq<Piece>, rest: string) {
    ps == [] || (PieceOk(ps[0], PiecesText(ps[1..]) + rest) && PiecesOk(ps[1..], rest))
  }

  ghost function PiecesValue(ps: seq<Piece>, rest: string): string
    requires PiecesOk(ps, rest)
  {
    if ps == [] then "" else [PieceValue(ps[0])] + PiecesValue(ps[1..], rest)
  }

  /** The text of a value inside single quotes, where only a single quote is escaped. */
  function SingleText(s: string): string { if s == "" then "" else SingleChar(s[0]) + SingleText(s[1..]) }

  function SingleChar(c: char): string { if c == '\'' then "\\'" else [c] }

  /** A backslash before the closing quote would escape it. */
  predicate SingleOk(s: string) { s == "" || s[|s| - 1] != '\\' }

  datatype Quote = NoQuote | Double(pieces: seq<Piece>) | Single(value: string)

  /** A word: the white space before it, its plain part, and its quoted part. */
  datatype Word = Word(before: string, plain: string, quote: Quote)

  function QuoteText(q: Quote): string {
    match q
    case NoQuote => ""
    case Double(pieces) => "\"" + PiecesText(pieces) + "\""
    case Single(value) => "'" + SingleText(value) + "'"
  }

  function WordText(w: Word): string { w.before + (w.plain + QuoteText(w.quote)) }

  predicate Blank(c: char) { c == ' ' || c == '\n' || c == '\r' || c == '\t' }

  predicate PlainChar(c: char) { !Blank(c) && c != '"' && c != '\'' }

  predicate AllSpace(s: string) { forall i :: 0 <= i < |s| ==> IsSpace(s[i]) }

  predicate AllPlain(s: string) { forall i :: 0 <= i < |s| ==> PlainChar(s[i]) }

  /** A quoted part, and what ends the word. */
  ghost predicate QuoteOk(q: Quote, rest: string) {
    match q
    case NoQuote => rest == "" || Blank(rest[0])
    case Double(pieces) => PiecesOk(pieces, "\"" + rest) && (rest == "" || IsSpace(rest[0]))
    case Single(value) => SingleOk(value) && (rest == "" || IsSpace(rest[0]))
  }

  ghost predicate WordOk(w: Word, rest: string) {
    && AllSpace(w.before) && AllPlain(w.plain) && QuoteOk(w.quote, rest)
    && (if w.plain == "" then !w.quote.NoQuote? else !IsSpace(w.plain[0]))
  }

  ghost function WordValue(w: Word, rest: string): string
    requires WordOk(w, rest)
  {
    match w.quote
    case NoQuote => w.plain
    case Double(pieces) => w.plain + PiecesValue(pieces, "\"" + rest)
    case Single(value) => w.plain + value
  }

  const SMALL_HEX := "0123456789abcdef"
  const CAPITAL_HEX := "0123456789ABCDEF"

  lemma HexAt(i: nat)
    requires i < 16
    ensures IsHex(SMALL_HEX[i]) && HexValue(SMALL_HEX[i]) == i
    ensures IsHex(CAPITAL_HEX[i]) && HexValue(CAPITAL_HEX[i]) == i
  {
  }

  /** The hexadecimal digits, in either case of letters. */
  lemma HexExactly(c: char)
    ensures IsHex(c) <==> c in SMALL_HEX || c in CAPITAL_HEX
    ensures forall i :: 0 <= i < 16 && (c == SMALL_HEX[i] || c == CAPITAL_HEX[i]) ==> HexValue(c) == i
  {
    if '0' <= c <= '9' { HexAt(c as int - '0' as int); }
    if 'a' <= c <= 'f' { assert SMALL_HEX[10 + c as int - 'a' as int] == c; }
    if 'A' <= c <= 'F' { assert CAPITAL_HEX[10 + c as int - 'A' as int] == c; }
    forall i | 0 <= i < 16
      ensures IsHex(SMALL_HEX[i]) && IsHex(CAPITAL_HEX[i])
      ensures HexValue(SMALL_HEX[i]) == i && HexValue(CAPITAL_HEX[i]) == i
    {
      HexAt(i);
    }
  }

  // ----- one word -----

  lemma {:induction false} PiecesRead(ps: seq<Piece>, rest: string, current: string)
    requires PiecesOk(ps, "\"" + rest) && (rest == "" || IsSpace(rest[0]))
    ensures ReadToken(PiecesText(ps) + ("\"" + rest), InDouble, current)
         == Done(current + PiecesValue(ps, "\"" + rest), rest)
    decreases |ps|
  {
    hide ReadToken, PieceText, PieceValue;
    var close := "\"" + rest;
    if ps == [] {
      assert PiecesText(ps) + close == close && current + "" == current;
      CloseDouble(rest, current);
    } else {
      var p, more := ps[0], PiecesText(ps[1..]);
      Regroup(PieceText(p), more, close);
      PieceRead(p, more + close, current);
      PiecesRead(ps[1..], rest, current + [PieceValue(p)]);
      Regroup(current, [PieceValue(p)], PiecesValue(ps[1..], close));
    }
  }

  lemma CloseDouble(rest: string, current: string)
    requires rest == "" || IsSpace(rest[0])
    ensures ReadToken("\"" + rest, InDouble, current) == Done(current, rest)
  {
    assert ("\"" + rest)[1..] == rest;
  }

  lemma PieceRead(p: Piece, rest: string, current: string)
    requires PieceOk(p, rest)
    ensures ReadToken(PieceText(p) + rest, InDouble, current) == ReadToken(rest, InDouble, current + [PieceValue(p)])
  {
    var t := PieceText(p) + rest;
    match p
    case Raw(c) => assert t[1..] == rest;
    case Escaped(c) =>
      assert t[2..] == rest && t[0] == '\\' && t[1] == c;
      assert |t| >= 4 ==> t[2] == rest[0] && t[3] == rest[1];
    case Hex(high, low) =>
      assert t[4..] == rest && t[0] == '\\' && t[1] == 'x' && t[2] == high && t[3] == low;
  }

  lemma {:induction false} SingleRead(s: string, rest: string, current: string)
    requires SingleOk(s) && (rest == "" || IsSpace(rest[0]))
    ensures ReadToken(SingleText(s) + ("'" + rest), InSingle, current) == Done(current + s, rest)
    decreases |s|
  {
    hide ReadToken;
    var close := "'" + rest;
    if s == "" {
      assert SingleText(s) + close == close && current + "" == current;
      CloseSingle(rest, current);
    } else {
      var text := SingleText(s[1..]);
      Regroup(SingleChar(s[0]), text, close);
      SingleStarts(s[1..], close);
      SingleStep(s[0], text + close, current);
      SingleRead(s[1..], rest, current + [s[0]]);
      assert s == [s[0]] + s[1..];
      Regroup(current, [s[0]], s[1..]);
    }
  }

  lemma Regroup(a: string, b: string, c: string)
    ensures a + b + c == a + (b + c)
  {
  }

  lemma SingleStarts(s: string, close: string)
    ensures s != "" ==> SingleText(s) + close != "" && (SingleText(s) + close)[0] != '\''
  {
    if s != "" { assert (SingleText(s) + close)[0] == SingleChar(s[0])[0]; }
  }

  lemma CloseSingle(rest: string, current: string)
    requires rest == "" || IsSpace(rest[0])
    ensures ReadToken("'" + rest, InSingle, current) == Done(current, rest)
  {
    assert ("'" + rest)[1..] == rest;
  }

  lemma SingleStep(c: char, more: string, current: string)
    requires c == '\\' ==> more != "" && more[0] != '\''
    ensures ReadToken(SingleChar(c) + more, InSingle, current) == ReadToken(more, InSingle, current + [c])
  {
    var t := SingleChar(c) + more;
    assert t[|SingleChar(c)|..] == more;
  }

  lemma {:induction false} PlainRead(plain: string, rest: string, current: string)
    requires AllPlain(plain)
    ensures ReadToken(plain + rest, Plain, current) == ReadToken(rest, Plain, current + plain)
    decreases |plain|
  {
    if plain == "" {
      assert plain + rest == rest && current + plain == current;
    } else {
      assert (plain + rest)[1..] == plain[1..] + rest && (plain + rest)[0] == plain[0];
      PlainRead(plain[1..], rest, current + [plain[0]]);
      assert current + [plain[0]] + plain[1..] == current + plain;
    }
  }

  /** A word is taken off the front, with the one blank behind it if it is not quoted. */
  lemma WordRead(w: Word, rest: string)
    requires WordOk(w, rest)
    ensures ReadToken(w.plain + QuoteText(w.quote) + rest, Plain, "")
         == Done(WordValue(w, rest), if w.quote.NoQuote? && rest != "" then rest[1..] else rest)
  {
    hide ReadToken, PiecesText, SingleText, PiecesOk, SingleOk, PiecesValue;
    var q := QuoteText(w.quote) + rest;
    assert w.plain + QuoteText(w.quote) + rest == w.plain + q;
    PlainRead(w.plain, q, "");
    assert "" + w.plain == w.plain;
    match w.quote
    case NoQuote =>
      assert q == rest;
      EndPlain(rest, w.plain);
    case Double(pieces) =>
      assert q == "\"" + (PiecesText(pieces) + ("\"" + rest));
      OpenQuotes(PiecesText(pieces) + ("\"" + rest), w.plain);
      PiecesRead(pieces, rest, w.plain);
    case Single(value) =>
      assert q == "'" + (SingleText(value) + ("'" + rest));
      OpenQuotes(SingleText(value) + ("'" + rest), w.plain);
      SingleRead(value, rest, w.plain);
  }

  lemma EndPlain(rest: string, current: string)
    requires rest == "" || Blank(rest[0])
    ensures ReadToken(rest, Plain, current) == Done(current, if rest != "" then rest[1..] else rest)
  {
  }

  lemma OpenQuotes(t: string, current: string)
    ensures ReadToken("\"" + t, Plain, current) == ReadToken(t, InDouble, current)
    ensures ReadToken("'" + t, Plain, current) == ReadToken(t, InSingle, current)
  {
    assert ("\"" + t)[1..] == t && ("'" + t)[1..] == t;
  }

  // ----- and nothing else is a word -----

  lemma QuoteEnds(t: string, current: string)
    ensures ReadToken(t, InDouble, current).Done? ==> t != "" && (t[0] == '"' ==> |t| == 1 || IsSpace(t[1]))
    ensures ReadToken(t, InSingle, current).Done? ==> t != "" && (t[0] == '\'' ==> |t| == 1 || IsSpace(t[1]))
  {
  }

  lemma {:induction false} DoubleOf(t: string, current: string) returns (ps: seq<Piece>, rest: string)
    requires ReadToken(t, InDouble, current).Done?
    ensures t == PiecesText(ps) + ("\"" + rest) && PiecesOk(ps, "\"" + rest) && (rest == "" || IsSpace(rest[0]))
    decreases |t|
  {
    hide PieceText, PieceOk, PieceValue, ReadToken, IsSpace;
    QuoteEnds(t, current);
    if t[0] == '"' {
      ps, rest := [], t[1..];
      assert t == "\"" + rest;
    } else {
      var p, more, c := PieceOf(t, current);
      var ps';
      ps', rest := DoubleOf(more, current + [c]);
      ps := [p] + ps';
      assert ps[1..] == ps';
      assert PiecesText(ps) + ("\"" + rest) == PieceText(p) + (PiecesText(ps') + ("\"" + rest));
    }
  }

  lemma PieceOf(t: string, current: string) returns (p: Piece, more: string, c: char)
    requires t != "" && t[0] != '"' && ReadToken(t, InDouble, current).Done?
    ensures t == PieceText(p) + more && PieceOk(p, more) && |more| < |t|
    ensures ReadToken(more, InDouble, current + [c]).Done?
  {
    if t[0] == '\\' && |t| >= 4 && t[1] == 'x' && TwoHex(t[2..]) {
      p, more := Hex(t[2], t[3]), t[4..];
      assert t == PieceText(p) + more;
    } else if t[0] == '\\' && |t| >= 2 {
      p, more := Escaped(t[1]), t[2..];
      assert t == PieceText(p) + more;
    } else {
      p, more := Raw(t[0]), t[1..];
    }
    c := PieceValue(p);
  }

  lemma {:induction false} SingleOf(t: string, current: string) returns (s: string, rest: string)
    requires ReadToken(t, InSingle, current).Done?
    ensures t == SingleText(s) + ("'" + rest) && SingleOk(s) && (rest == "" || IsSpace(rest[0]))
    ensures s == "" ==> t[0] == '\''
    decreases |t|
  {
    hide ReadToken, SingleChar, IsSpace;
    QuoteEnds(t, current);
    if t[0] == '\'' {
      s, rest := "", t[1..];
      assert t == "'" + rest;
    } else {
      var c, more := SingleCharOf(t, current);
      var s';
      s', rest := SingleOf(more, current + [c]);
      s := [c] + s';
      assert s[1..] == s';
      assert SingleText(s) + ("'" + rest) == SingleChar(c) + (SingleText(s') + ("'" + rest));
      if s' == "" { assert s[|s| - 1] == c; } else { assert s[|s| - 1] == s'[|s'| - 1]; }
    }
  }

  lemma SingleCharOf(t: string, current: string) returns (c: char, more: string)
    requires t != "" && t[0] != '\'' && ReadToken(t, InSingle, current).Done?
    ensures t == SingleChar(c) + more && |more| < |t| && ReadToken(more, InSingle, current + [c]).Done?
    ensures c == '\\' ==> more == "" || more[0] != '\''
  {
    if t[0] == '\\' && |t| >= 2 && t[1] == '\'' {
      c, more := '\'', t[2..];
      assert t == SingleChar(c) + more;
    } else {
      c, more := t[0], t[1..];
    }
  }

  lemma {:induction false} WordOf(t: string, current: string) returns (plain: string, q: Quote, rest: string)
    requires ReadToken(t, Plain, current).Done?
    ensures t == plain + (QuoteText(q) + rest) && AllPlain(plain) && QuoteOk(q, rest)
    decreases |t|
  {
    hide PiecesText, SingleText, PiecesOk, SingleOk, IsSpace, ReadToken, QuoteText, QuoteOk, AllPlain;
    if t == "" || !PlainChar(t[0]) {
      plain := "";
      q, rest := QuoteOf(t, current);
      assert t == "" + t;
      NonePlain();
    } else {
      PlainStep(t, current);
      var more;
      more, q, rest := WordOf(t[1..], current + [t[0]]);
      plain := [t[0]] + more;
      assert plain + (QuoteText(q) + rest) == [t[0]] + (more + (QuoteText(q) + rest));
      MorePlain(t[0], more);
    }
  }

  lemma NonePlain()
    ensures AllPlain("")
  {
  }

  lemma MorePlain(c: char, s: string)
    requires PlainChar(c) && AllPlain(s)
    ensures AllPlain([c] + s)
  {
  }

  lemma PlainStep(t: string, current: string)
    requires t != "" && PlainChar(t[0])
    ensures ReadToken(t, Plain, current) == ReadToken(t[1..], Plain, current + [t[0]])
  {
  }

  lemma QuoteOf(t: string, current: string) returns (q: Quote, rest: string)
    requires ReadToken(t, Plain, current).Done? && (t == "" || !PlainChar(t[0]))
    ensures t == QuoteText(q) + rest && QuoteOk(q, rest)
  {
    hide PiecesText, SingleText, PiecesOk, SingleOk, IsSpace, ReadToken;
    if t == "" || Blank(t[0]) {
      q, rest := NoQuote, t;
    } else if t[0] == '"' {
      assert t == "\"" + t[1..];
      OpenQuotes(t[1..], current);
      var ps;
      ps, rest := DoubleOf(t[1..], current);
      q := Double(ps);
      assert t == QuoteText(q) + rest;
    } else {
      assert t == "'" + t[1..];
      OpenQuotes(t[1..], current);
      var s;
      s, rest := SingleOf(t[1..], current);
      q := Single(s);
      assert t == QuoteText(q) + rest;
    }
  }

  // ----- whole lines -----

  function LineText(ws: seq<Word>, after: string): string {
    if ws == [] then after else WordText(ws[0]) + LineText(ws[1..], after)
  }

  ghost predicate LineOk(ws: seq<Word>, after: string) {
    if ws == [] then AllSpace(after)
    else WordOk(ws[0], LineText(ws[1..], after)) && LineOk(ws[1..], after)
  }

  ghost function LineValues(ws: seq<Word>, after: string): seq<string>
    requires LineOk(ws, after)
  {
    if ws == [] then [] else [WordValue(ws[0], LineText(ws[1..], after))] + LineValues(ws[1..], after)
  }

  lemma {:induction false} SkipSpace(space: string, t: string)
    requires AllSpace(space)
    ensures SplitArgs(space + t) == SplitArgs(t)
  {
    if space == "" {
      assert space + t == t;
    } else {
      assert (space + t)[1..] == space[1..] + t && (space + t)[0] == space[0];
      SkipSpace(space[1..], t);
    }
  }

  lemma BlankIsSpace(t: string)
    requires t != "" && Blank(t[0])
    ensures SplitArgs(t) == SplitArgs(t[1..])
  {
  }

  lemma SplitWordFirst(w: Word, rest: string)
    requires WordOk(w, rest)
    ensures SplitArgs(WordText(w) + rest) == match SplitArgs(rest)
                                             case None => None
                                             case Some(more) => Some([WordValue(w, rest)] + more)
  {
    hide ReadToken, PiecesText, SingleText, PiecesOk, SingleOk, PiecesValue, IsSpace, SplitArgs, WordValue;
    var t := w.plain + QuoteText(w.quote) + rest;
    assert WordText(w) + rest == w.before + t;
    SkipSpace(w.before, t);
    WordRead(w, rest);
    QuoteNoSpace(w, rest);
    SplitOneWord(t);
    if w.quote.NoQuote? && rest != "" { BlankIsSpace(rest); }
  }

  lemma QuoteNoSpace(w: Word, rest: string)
    requires WordOk(w, rest)
    ensures var t := w.plain + QuoteText(w.quote) + rest; t != "" && !IsSpace(t[0])
  {
    hide PiecesText, SingleText, PiecesOk, SingleOk;
    if w.plain == "" { assert (w.plain + QuoteText(w.quote) + rest)[0] == QuoteText(w.quote)[0]; }
  }

  lemma SplitOneWord(t: string)
    requires t != "" && !IsSpace(t[0])
    ensures SplitArgs(t) == match ReadToken(t, Plain, "")
                            case Unbalanced => None
                            case Done(token, rest) =>
                              (match SplitArgs(rest)
                               case None => None
                               case Some(more) => Some([token] + more))
  {
    hide ReadToken, IsSpace;
  }

  lemma {:induction false} LineSplits(ws: seq<Word>, after: string)
    requires LineOk(ws, after)
    ensures SplitArgs(LineText(ws, after)) == Some(LineValues(ws, after))
    decreases |ws|
  {
    hide WordOk, WordText, WordValue;
    if ws == [] {
      SkipSpace(after, "");
      assert after + "" == after;
    } else {
      hide SplitArgs;
      LineSplits(ws[1..], after);
      SplitWordFirst(ws[0], LineText(ws[1..], after));
    }
  }

  lemma {:induction false} LineOf(t: string) returns (ws: seq<Word>, after: string)
    requires SplitArgs(t).Some?
    ensures t == LineText(ws, after) && LineOk(ws, after)
    decreases |t|
  {
    hide ReadToken, PiecesText, SingleText, PiecesOk, SingleOk, QuoteText;
    if t == "" {
      ws, after := [], "";
    } else if IsSpace(t[0]) {
      ws, after := LineOf(t[1..]);
      ws, after := WithSpace(t[0], ws, after);
    } else {
      SplitOneWord(t);
      hide SplitArgs;
      var plain, q, rest := WordOf(t, "");
      assert t == plain + QuoteText(q) + rest;
      var w := Word("", plain, q);
      FirstWord(t, w, rest);
      SplitWordFirst(w, rest);
      assert WordText(w) + rest == t;
      FirstLonger(w, rest);
      var more;
      more, after := LineOf(rest);
      ws := [w] + more;
      assert ws[1..] == more;
    }
  }

  lemma FirstLonger(w: Word, rest: string)
    requires WordOk(w, rest)
    ensures WordText(w) != ""
  {
    hide PiecesText, SingleText, PiecesOk, SingleOk;
    QuoteNoSpace(w, rest);
    assert w.plain + QuoteText(w.quote) != "";
  }

  lemma FirstWord(t: string, w: Word, rest: string)
    requires t != "" && !IsSpace(t[0]) && w.before == "" && t == w.plain + QuoteText(w.quote) + rest
    requires AllPlain(w.plain) && QuoteOk(w.quote, rest)
    ensures WordOk(w, rest) && WordText(w) + rest == t
  {
    hide PiecesText, SingleText, PiecesOk, SingleOk;
    assert WordText(w) == w.plain + QuoteText(w.quote);
  }

  lemma WithSpace(c: char, ws: seq<Word>, after: string) returns (ws': seq<Word>, after': string)
    requires IsSpace(c) && LineOk(ws, after)
    ensures LineText(ws', after') == [c] + LineText(ws, after) && LineOk(ws', after')
  {
    hide QuoteText, IsSpace, QuoteOk, AllPlain, AllSpace;
    if ws == [] {
      ws', after' := [], [c] + after;
      MoreSpace(c, after);
    } else {
      var w := ws[0];
      var w' := w.(before := [c] + w.before);
      MoreSpace(c, w.before);
      ws', after' := [w'] + ws[1..], after;
      assert ws'[1..] == ws[1..];
      var text := w.plain + QuoteText(w.quote);
      assert [c] + w.before + text == [c] + (w.before + text);
    }
  }

  lemma MoreSpace(c: char, s: string)
    requires IsSpace(c) && AllSpace(s)
    ensures AllSpace([c] + s)
  {
  }

  ghost predicate IsLineOf(t: string, ws: seq<Word>, after: string) { t == LineText(ws, after) && LineOk(ws, after) }

  /** A text splits into arguments exactly if it is a line of words, and then into their values. */
  lemma SplitsExactly(t: string)
    ensures SplitArgs(t).Some? <==> exists ws, after :: IsLineOf(t, ws, after)
    ensures forall ws, after :: IsLineOf(t, ws, after) ==> SplitArgs(t) == Some(LineValues(ws, after))
  {
    hide SplitArgs, LineText, LineOk, LineValues;
    forall ws, after | IsLineOf(t, ws, after) ensures SplitArgs(t) == Some(LineValues(ws, after)) {
      LineSplits(ws, after);
    }
    if SplitArgs(t).Some? {
      var ws, after := LineOf(t);
      assert IsLineOf(t, ws, after);
    }
  }
}
