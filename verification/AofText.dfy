/** The text of the append-only log: catAppendOnlyGenericCommand() prints a command, the reading half
    of loadSingleAppendOnlyFile() parses the next one. A byte is a `char`, a byte string a `string`. */
module AofText {
  import opened CString

  // ----- printing -----

  type Command = seq<string>

  function PrintArg(a: string): string { "$" + Decimal(|a|) + "\r\n" + a + "\r\n" }

  function PrintArgs(args: seq<string>): string {
    if args == [] then "" else PrintArg(args[0]) + PrintArgs(args[1..])
  }

  function Print(c: Command): string { "*" + Decimal(|c|) + "\r\n" + PrintArgs(c) }

  /** What the C types allow: argc is an int, an argument's length a size_t. */
  predicate Printable(c: Command) {
    1 <= |c| < 0x8000_0000 && forall i :: 0 <= i < |c| ==> |c[i]| < 0x8000_0000_0000_0000
  }

  // ----- reading -----

  /** AOF_ANNOTATION_LINE_MAX_LEN: fgets() keeps one byte of the buffer for the terminator. */
  const LINE_MAX := 1023

  datatype ParsedArgs = Args(args: seq<string>, used: nat) | ArgsShort | ArgsFormat | ArgsAbort

  /** The argument loop: `n` times a length line, the bytes it announces, and two discarded bytes. */
  function ParseArgs(t: string, n: nat): (r: ParsedArgs)
    ensures r.Args? ==> r.used <= |t| && |r.args| == n
    decreases n
  {
    if n == 0 then Args([], 0)
    else if t == "" then ArgsShort
    else if t[0] != '$' then ArgsFormat
    else
      var used := LineLength(t, LINE_MAX);
      var len := Number(t[1..used]);
      if len < 0 then ArgsAbort
      else if used + len + 2 > |t| then ArgsShort
      else
        match ParseArgs(t[used + len + 2..], n - 1)
        case Args(rest, more) => Args([t[used..used + len]] + rest, used + len + 2 + more)
        case bad => bad
  }

  datatype Item =
    | EndOfFile
    | Annotation(used: nat)
    | Parsed(cmd: Command, used: nat)
    | ShortRead       // feof() after a failed read
    | FormatError
    | ReadError       // a failed read that is not at the end of the file
    | Abort           // an allocation of a negative size

  /** The next item of the log that starts with the unread bytes `t`. */
  function NextItem(t: string): (r: Item)
    ensures r.Annotation? || r.Parsed? ==> 0 < r.used <= |t|
  {
    if t == "" then EndOfFile
    else
      var used := LineLength(t, LINE_MAX);
      if t[0] == '#' then Annotation(used)
      else if t[0] != '*' then FormatError
      else if used == 1 || t[1] == '\0' then
        (if used == |t| && used < LINE_MAX && t[used - 1] != '\n' then ShortRead else ReadError)
      else
        var argc := Number(t[1..used]);
        if argc < 1 then FormatError
        else
          match ParseArgs(t[used..], argc)
          case Args(args, more) => Parsed(args, used + more)
          case ArgsShort => ShortRead
          case ArgsFormat => FormatError
          case ArgsAbort => Abort
  }

  // ----- what the reader makes of printed text -----

  lemma HeaderLine(mark: char, n: nat, rest: string)
    requires mark != '\n' && n < 0x8000_0000_0000_0000
    ensures var t := [mark] + Decimal(n) + "\r\n" + rest;
      && LineLength(t, LINE_MAX) == |Decimal(n)| + 3
      && Number(t[1..|Decimal(n)| + 3]) == n
  {
    var t := [mark] + Decimal(n) + "\r\n" + rest;
    DecimalBound(n);
    var h := [mark] + Decimal(n) + "\r";
    assert t == h + "\n" + rest;
    LineOf(h, rest, LINE_MAX);
    assert t[1..|Decimal(n)| + 3] == Decimal(n) + "\r\n";
    NumberOfDecimal(n, "\r\n");
  }

  /** One printed argument is taken off the front. */
  lemma ParseOneArg(a: string, tail: string, n: nat)
    requires n > 0 && |a| < 0x8000_0000_0000_0000
    ensures ParseArgs(PrintArg(a) + tail, n)
         == match ParseArgs(tail, n - 1)
            case Args(rest, more) => Args([a] + rest, |PrintArg(a)| + more)
            case bad => bad
  {
    hide Decimal, Number, LineLength, ParseArgs;
    var t := PrintArg(a) + tail;
    var header := ['$'] + Decimal(|a|) + "\r\n";
    assert t == header + (a + "\r\n" + tail);
    HeaderLine('$', |a|, a + "\r\n" + tail);
    SplitArg(header, a, "\r\n", tail);
    ParseArgStep(t, n, |header|, |a|);
  }

  lemma ParseArgStep(t: string, n: nat, used: nat, len: nat)
    requires n > 0 && t != "" && t[0] == '$' && LineLength(t, LINE_MAX) == used && 1 <= used && used + len + 2 <= |t|
    requires Number(t[1..used]) == len
    ensures ParseArgs(t, n)
         == match ParseArgs(t[used + len + 2..], n - 1)
            case Args(rest, more) => Args([t[used..used + len]] + rest, used + len + 2 + more)
            case bad => bad
  {
    hide Number, LineLength;
  }

  lemma SplitArg(header: string, a: string, end: string, tail: string)
    ensures var t := header + (a + end + tail);
      && t[|header|..|header| + |a|] == a
      && t[|header| + |a| + |end|..] == tail
  {
  }

  lemma {:induction false} ParsePrintedArgs(args: seq<string>, rest: string)
    requires forall i :: 0 <= i < |args| ==> |args[i]| < 0x8000_0000_0000_0000
    ensures ParseArgs(PrintArgs(args) + rest, |args|) == Args(args, |PrintArgs(args)|)
  {
    hide PrintArg;
    if args != [] {
      assert PrintArgs(args) + rest == PrintArg(args[0]) + (PrintArgs(args[1..]) + rest);
      ParseOneArg(args[0], PrintArgs(args[1..]) + rest, |args|);
      ParsePrintedArgs(args[1..], rest);
    }
  }

  /** A whole printed command is read back, whatever follows it. */
  lemma ParsePrinted(c: Command, rest: string)
    requires Printable(c)
    ensures NextItem(Print(c) + rest) == Parsed(c, |Print(c)|)
  {
    var t := Print(c) + rest;
    var used := |Decimal(|c|)| + 3;
    assert t == ['*'] + Decimal(|c|) + "\r\n" + (PrintArgs(c) + rest);
    HeaderLine('*', |c|, PrintArgs(c) + rest);
    assert t[1] == Decimal(|c|)[0];
    assert t[used..] == PrintArgs(c) + rest;
    ParsePrintedArgs(c, rest);
  }

  /** A header cut short has no newline, so fgets() takes all that is left of the file. */
  lemma CutHeader(mark: char, n: nat, k: nat)
    requires mark != '\n' && n < 0x8000_0000_0000_0000
    requires 0 < k < |Decimal(n)| + 3
    ensures var t := ([mark] + Decimal(n) + "\r\n")[..k];
      && LineLength(t, LINE_MAX) == k
      && t[0] == mark && t[k - 1] != '\n'
      && Number(t[1..]) >= 0
      && (n > 0 && k > 1 ==> Number(t[1..]) >= 1 && t[1] != '\0')
  {
    var h := [mark] + Decimal(n) + "\r\n";
    var t := h[..k];
    DecimalBound(n);
    assert forall i :: 0 <= i < k ==> t[i] == h[i];
    assert NoNewline(t);
    LineAtEnd(t, LINE_MAX);
    if k > 1 {
      assert t[1] == Decimal(n)[0];
      if n > 0 {
        ReadDigitsGrows(t[2..], DigitValue(t[1]));
        assert t[1..][1..] == t[2..];
      }
    }
  }

  lemma ParseCutArg(a: string, k: nat, n: nat)
    requires n > 0 && |a| < 0x8000_0000_0000_0000 && k < |PrintArg(a)|
    ensures ParseArgs(PrintArg(a)[..k], n) == ArgsShort
  {
    hide Decimal, Number, LineLength;
    var header := ['$'] + Decimal(|a|) + "\r\n";
    var t := PrintArg(a)[..k];
    assert PrintArg(a) == header + (a + "\r\n");
    if 0 < k < |header| {
      assert t == header[..k];
      CutHeader('$', |a|, k);
      assert t[1..k] == t[1..];
    } else if |header| <= k {
      var rest := (a + "\r\n")[..k - |header|];
      assert t == header + rest;
      HeaderLine('$', |a|, rest);
    }
  }

  lemma {:induction false} ParseCutArgs(args: seq<string>, k: nat)
    requires forall i :: 0 <= i < |args| ==> |args[i]| < 0x8000_0000_0000_0000
    requires k < |PrintArgs(args)|
    ensures ParseArgs(PrintArgs(args)[..k], |args|) == ArgsShort
  {
    hide PrintArg;
    var first := PrintArg(args[0]);
    var t := PrintArgs(args)[..k];
    if k < |first| {
      assert t == first[..k];
      ParseCutArg(args[0], k, |args|);
    } else {
      var tail := PrintArgs(args[1..])[..k - |first|];
      assert t == first + tail;
      ParseOneArg(args[0], tail, |args|);
      ParseCutArgs(args[1..], k - |first|);
    }
  }

  /** A printed command cut anywhere inside is a short read at the end of the file, never a format error. */
  lemma ParseCut(c: Command, k: nat)
    requires Printable(c) && 0 < k < |Print(c)|
    ensures NextItem(Print(c)[..k]) == ShortRead
  {
    var header := ['*'] + Decimal(|c|) + "\r\n";
    var t := Print(c)[..k];
    assert Print(c) == header + PrintArgs(c);
    if k < |header| {
      assert t == header[..k];
      CutHeader('*', |c|, k);
      assert t[k..] == "" && t[1..k] == t[1..];
    } else {
      var rest := PrintArgs(c)[..k - |header|];
      assert t == header + rest;
      HeaderLine('*', |c|, rest);
      assert t[1] == Decimal(|c|)[0];
      assert t[|header|..] == rest;
      ParseCutArgs(c, k - |header|);
    }
  }
}
