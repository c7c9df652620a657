/** Command-line parsing of the viewer: the option/path/range scan over the
    argument list and the range token grammar. */
module Cli {
  import opened Bytes
  import opened Slice

  // ---------------------------------------------------------------------
  // Decimal integers (the i64 `parse` of a range token)
  // ---------------------------------------------------------------------

  predicate IsDigit(c: char) {
    '0' <= c <= '9'
  }

  predicate AllDigits(s: string) {
    forall i :: 0 <= i < |s| ==> IsDigit(s[i])
  }

  /** Value of a string of decimal digits, most significant first. */
  function DigitsValue(s: string): nat
    requires AllDigits(s)
  {
    if s == [] then 0 else DigitsValue(s[..|s| - 1]) * 10 + (s[|s| - 1] as int - '0' as int)
  }

  /** Rust's `str::parse::<i64>`: an optional `+` or `-`, then at least one
      ASCII digit and nothing else, with a value inside the i64 range. */
  function ParseI64(s: string): (r: Option<int>)
    ensures r.Some? ==> IsI64(r.value)
    ensures r.Some? ==> s != [] && ':' !in s
    ensures r.Some? && s[0] != '-' ==> r.value >= 0
  {
    if s == [] then None
    else
      var digits := if s[0] == '-' || s[0] == '+' then s[1..] else s;
      if digits == [] || !AllDigits(digits) then None
      else
        assert forall i :: 0 <= i < |s| ==> s[i] == s[0] || s[i] in digits;
        var v: int := if s[0] == '-' then -(DigitsValue(digits) as int) else DigitsValue(digits);
        if IsI64(v) then Some(v) else None
  }

  /** Decimal digits of a natural number, without leading zeros. */
  function NatDigits(n: nat): (r: string)
    ensures r != [] && AllDigits(r)
    ensures DigitsValue(r) == n
    ensures |r| > 1 ==> r[0] != '0'
  {
    var d := ('0' as int + n % 10) as char;
    if n < 10 then [d]
    else
      var prefix := NatDigits(n / 10);
      assert (prefix + [d])[..|prefix + [d]| - 1] == prefix;
      prefix + [d]
  }

  /** The usual decimal rendering of an integer (Rust's `to_string`). */
  function DecimalString(n: int): string {
    if n < 0 then "-" + NatDigits(-n) else NatDigits(n)
  }

  /** Parsing undoes rendering for every i64 value. */
  lemma ParseDecimalString(n: int)
    requires IsI64(n)
    ensures ParseI64(DecimalString(n)) == Some(n)
    ensures DecimalString(n) != [] && ':' !in DecimalString(n)
  {
    var digits := NatDigits(if n < 0 then -n else n);
    assert digits[0] != '-' && digits[0] != '+' by { assert IsDigit(digits[0]); }
    if n < 0 {
      assert DecimalString(n)[1..] == digits;
    }
    assert forall i :: 0 <= i < |digits| ==> digits[i] != ':' by {
      forall i | 0 <= i < |digits| ensures digits[i] != ':' { assert IsDigit(digits[i]); }
    }
  }

  // ---------------------------------------------------------------------
  // Splitting a token at ':' (Rust's `split(':')`)
  // ---------------------------------------------------------------------

  function IndexOfColon(s: string): (i: nat)
    ensures i <= |s|
    ensures i < |s| ==> s[i] == ':'
    ensures forall j :: 0 <= j < i ==> s[j] != ':'
  {
    if s == [] then 0
    else if s[0] == ':' then 0
    else 1 + IndexOfColon(s[1..])
  }

  /** The parts joined back with ':' between them. */
  function JoinColon(parts: seq<string>): string
    requires parts != []
  {
    if |parts| == 1 then parts[0] else parts[0] + ":" + JoinColon(parts[1..])
  }

  /** The colon-separated parts of a string: none of them contains ':', and
      joining them with ':' gives the string back. */
  function Split(s: string): (parts: seq<string>)
    ensures parts != []
    ensures forall k :: 0 <= k < |parts| ==> ':' !in parts[k]
    ensures JoinColon(parts) == s
    ensures ':' in s <==> |parts| >= 2
    decreases |s|
  {
    var i := IndexOfColon(s);
    if i == |s| then [s]
    else
      var rest := Split(s[i + 1..]);
      assert s == s[..i] + ":" + s[i + 1..];
      [s[..i]] + rest
  }

  // ---------------------------------------------------------------------
  // The range argument (`parse_range`)
  // ---------------------------------------------------------------------

  /** The two optional, possibly negative bounds a range token asks for. */
  datatype RangeSpec = RangeSpec(start: Option<int>, end: Option<int>)

  /** A token without ':' that is not an integer (the `unwrap` panic). */
  datatype RangeParseError = NotAnInteger(token: string)

  /** One side of a `start:end` token: empty means absent, and a side that
      is not an integer is silently absent too. */
  function Side(part: string): (r: Option<int>)
    ensures r.Some? ==> IsI64(r.value) && part != [] && ':' !in part
    ensures r.None? <==> part == [] || ParseI64(part).None?
  {
    if part == [] then None else ParseI64(part)
  }

  function ParseRange(range: string): (r: Result<RangeSpec, RangeParseError>)
    ensures r.Ok? ==> IsOptI64(r.value.start) && IsOptI64(r.value.end)
    ensures r.Err? <==> range != [] && ':' !in range && ParseI64(range).None?
    ensures r.Err? ==> r.error == NotAnInteger(range)
  {
    if range == [] then Ok(RangeSpec(None, None))
    else if ':' !in range then
      match ParseI64(range)
      case None => Err(NotAnInteger(range))
      case Some(tmp) =>
        if tmp == -1 then Ok(RangeSpec(Some(tmp), None))
        else Ok(RangeSpec(Some(tmp), Some(WrapI64(tmp + 1))))
    else
      var parts := Split(range);
      Ok(RangeSpec(Side(parts[0]), Side(parts[1])))
  }

  /** An empty token asks for the whole file. */
  lemma ParseRangeEmpty()
    ensures ParseRange("") == Ok(RangeSpec(None, None))
  {
  }

  /** A single position N, written in any form the i64 parser accepts,
      selects [N, N+1), except -1, which selects from the last byte through
      the end of the file. For N = i64::MAX, N + 1 wraps to i64::MIN. */
  lemma ParseRangePosition(s: string, n: int)
    requires ParseI64(s) == Some(n)
    ensures n != -1 && n < I64_MAX ==> ParseRange(s) == Ok(RangeSpec(Some(n), Some(n + 1)))
    ensures n == -1 ==> ParseRange(s) == Ok(RangeSpec(Some(-1), None))
    ensures n == I64_MAX ==> ParseRange(s) == Ok(RangeSpec(Some(n), Some(I64_MIN)))
  {
  }

  /** A token with a colon uses the text before the first colon and the text
      after it; an empty or non-integer side is absent. */
  lemma ParseRangePair(a: string, b: string)
    requires ':' !in a && ':' !in b
    ensures ParseRange(a + ":" + b) == Ok(RangeSpec(Side(a), Side(b)))
  {
    ParseRangeWithColon(a, b);
    SplitColonFree(b);
  }

  /** Only the first two colon-separated parts count: anything after a
      second colon is ignored. */
  lemma ParseRangeIgnoresRest(a: string, b: string, tail: string)
    requires ':' !in a && ':' !in b
    ensures ParseRange(a + ":" + (b + ":" + tail)) == Ok(RangeSpec(Side(a), Side(b)))
  {
    ParseRangeWithColon(a, b + ":" + tail);
    SplitAtFirstColon(b, tail);
  }

  /** A string without a colon is a single part. */
  lemma SplitColonFree(s: string)
    requires ':' !in s
    ensures Split(s) == [s]
  {
    assert IndexOfColon(s) == |s|;
  }

  /** A token with a colon is read from its first two parts. */
  lemma ParseRangeWithColon(a: string, rest: string)
    requires ':' !in a
    ensures ParseRange(a + ":" + rest) == Ok(RangeSpec(Side(a), Side(Split(rest)[0])))
  {
    var s := a + ":" + rest;
    assert s[|a|] == ':';
    assert s != [] && ':' in s;
    SplitAtFirstColon(a, rest);
  }

  /** The first part of the split is the text before the first colon, and the
      remaining parts are the split of the text after it. */
  lemma SplitAtFirstColon(a: string, rest: string)
    requires ':' !in a
    ensures Split(a + ":" + rest) == [a] + Split(rest)
  {
    var s := a + ":" + rest;
    assert IndexOfColon(s) == |a| by {
      assert s[|a|] == ':';
      assert forall j :: 0 <= j < |a| ==> s[j] == a[j];
    }
    assert s[..|a|] == a && s[|a| + 1..] == rest;
  }

  // ---------------------------------------------------------------------
  // The argument scan (`parse_args`)
  // ---------------------------------------------------------------------

  /** The four display switches. */
  datatype Flags = Flags(help: bool, lineNumbers: bool, ascii: bool, inline: bool)

  predicate IsOption(arg: string) {
    |arg| > 0 && arg[0] == '-'
  }

  /** Number of leading arguments that are options. */
  function LeadingOptions(args: seq<string>): (n: nat)
    ensures n <= |args|
    ensures n < |args| ==> !IsOption(args[n])
  {
    if args == [] || !IsOption(args[0]) then 0 else 1 + LeadingOptions(args[1..])
  }

  /** Every argument before LeadingOptions(args) is an option. */
  lemma {:induction false} LeadingOptionsAreOptions(args: seq<string>)
    ensures forall j :: 0 <= j < LeadingOptions(args) ==> IsOption(args[j])
  {
    if args != [] && IsOption(args[0]) {
      LeadingOptionsAreOptions(args[1..]);
    }
  }

  /** Some option argument contains the character `c`. */
  predicate HasFlag(options: seq<string>, c: char) {
    exists j :: 0 <= j < |options| && c in options[j]
  }

  /** Position of the first non-empty argument (|args| if there is none). */
  function FirstNonEmpty(args: seq<string>): (k: nat)
    ensures k <= |args|
    ensures k < |args| ==> args[k] != ""
  {
    if args == [] || args[0] != "" then 0 else 1 + FirstNonEmpty(args[1..])
  }

  /** Every argument before FirstNonEmpty(args) is empty. */
  lemma {:induction false} FirstNonEmptySkipsEmpty(args: seq<string>)
    ensures forall j :: 0 <= j < FirstNonEmpty(args) ==> args[j] == ""
  {
    if args != [] && args[0] == "" {
      FirstNonEmptySkipsEmpty(args[1..]);
    }
  }

  /** The file path among the positional arguments: the first non-empty one
      (an empty argument leaves the path empty, so the next one is taken). */
  function FilePathOf(positional: seq<string>): string {
    var k := FirstNonEmpty(positional);
    if k < |positional| then positional[k] else ""
  }

  /** The range among the positional arguments: the last one, provided it
      comes after the file path. */
  function RangeArgOf(positional: seq<string>): string {
    var k := FirstNonEmpty(positional);
    if k + 1 < |positional| then positional[|positional| - 1] else ""
  }

  lemma {:induction false} FirstNonEmptyAppend(args: seq<string>, x: string)
    ensures FirstNonEmpty(args + [x]) ==
              if FirstNonEmpty(args) < |args| then FirstNonEmpty(args)
              else if x != "" then |args| else |args| + 1
  {
    if args != [] {
      assert (args + [x])[1..] == args[1..] + [x];
      FirstNonEmptyAppend(args[1..], x);
    }
  }

  /** One more positional argument: it becomes the file path while the path
      is still empty, and the range otherwise. */
  lemma PositionalAppend(positional: seq<string>, arg: string)
    ensures FilePathOf(positional + [arg]) ==
              if FilePathOf(positional) == "" then arg else FilePathOf(positional)
    ensures RangeArgOf(positional + [arg]) ==
              if FilePathOf(positional) == "" then RangeArgOf(positional) else arg
  {
    FirstNonEmptyAppend(positional, arg);
  }

  /** The loop state after the first i arguments: options are recognised
      exactly while no positional argument has been met, so the first
      min(i, LeadingOptions(rest)) arguments were options and the rest
      positional. */
  datatype ScanView = ScanView(seen: nat, optionsFlag: bool, flags: Flags, filePath: string, range: string)

  ghost function ScanSpec(rest: seq<string>, i: nat): ScanView
    requires i <= |rest|
  {
    var n := LeadingOptions(rest);
    var seen := if i <= n then i else n;
    ScanView(seen, i <= n, FlagsOf(rest[..seen]), FilePathOf(rest[seen..i]), RangeArgOf(rest[seen..i]))
  }

  ghost predicate ScanState(rest: seq<string>, i: nat, seen: nat, optionsFlag: bool,
                            flags: Flags, filePath: string, range: string)
  {
    i <= |rest| && ScanView(seen, optionsFlag, flags, filePath, range) == ScanSpec(rest, i)
  }

  /** An option argument met while options are recognised updates the flags. */
  lemma ScanOption(rest: seq<string>, i: nat, seen: nat, flags: Flags, filePath: string, range: string,
                   updated: Flags)
    requires ScanState(rest, i, seen, true, flags, filePath, range)
    requires i < |rest| && IsOption(rest[i])
    requires updated.help == (flags.help || 'h' in rest[i])
    requires updated.lineNumbers == (flags.lineNumbers && 'n' !in rest[i])
    requires updated.ascii == (flags.ascii && 'c' !in rest[i])
    requires updated.inline == (flags.inline || 'i' in rest[i])
    ensures ScanState(rest, i + 1, seen + 1, true, updated, filePath, range)
  {
    assert rest[..i + 1] == rest[..i] + [rest[i]];
    FlagsOfAppend(rest[..i], rest[i]);
  }

  /** A positional argument fills the file path while it is empty, and the
      range otherwise; after it options are no longer recognised. */
  lemma ScanPositional(rest: seq<string>, i: nat, seen: nat, optionsFlag: bool,
                       flags: Flags, filePath: string, range: string,
                       optionsFlag': bool, filePath': string, range': string)
    requires ScanState(rest, i, seen, optionsFlag, flags, filePath, range)
    requires i < |rest| && !(optionsFlag && IsOption(rest[i]))
    requires filePath == "" ==> optionsFlag' == false && filePath' == rest[i] && range' == range
    requires filePath != "" ==> optionsFlag' == optionsFlag && filePath' == filePath && range' == rest[i]
    ensures ScanState(rest, i + 1, seen, optionsFlag', flags, filePath', range')
  {
    var n := LeadingOptions(rest);
    LeadingOptionsAreOptions(rest);
    assert seen == n;
    assert rest[seen..i + 1] == rest[seen..i] + [rest[i]];
    PositionalAppend(rest[seen..i], rest[i]);
  }

  /** One iteration of the scan keeps the scan state: an option while
      options are recognised updates the flags, anything else is positional. */
  lemma ScanStep(rest: seq<string>, i: nat, seen: nat, optionsFlag: bool,
                 flags: Flags, filePath: string, range: string,
                 seen': nat, optionsFlag': bool, flags': Flags, filePath': string, range': string)
    requires ScanState(rest, i, seen, optionsFlag, flags, filePath, range)
    requires i < |rest|
    requires optionsFlag && IsOption(rest[i]) ==>
               seen' == seen + 1 && optionsFlag' && filePath' == filePath && range' == range &&
               flags'.help == (flags.help || 'h' in rest[i]) &&
               flags'.lineNumbers == (flags.lineNumbers && 'n' !in rest[i]) &&
               flags'.ascii == (flags.ascii && 'c' !in rest[i]) &&
               flags'.inline == (flags.inline || 'i' in rest[i])
    requires !(optionsFlag && IsOption(rest[i])) ==>
               seen' == seen && flags' == flags &&
               (filePath == "" ==> !optionsFlag' && filePath' == rest[i] && range' == range) &&
               (filePath != "" ==> optionsFlag' == optionsFlag && filePath' == filePath && range' == rest[i])
    ensures ScanState(rest, i + 1, seen', optionsFlag', flags', filePath', range')
  {
    if optionsFlag && IsOption(rest[i]) {
      ScanOption(rest, i, seen, flags, filePath, range, flags');
    } else {
      ScanPositional(rest, i, seen, optionsFlag, flags, filePath, range, optionsFlag', filePath', range');
    }
  }

  /** One option argument: each of the letters h, n, c and i it contains
      switches its flag, whatever else the argument holds. */
  method ApplyOption(argument: string, flags: Flags) returns (updated: Flags)
    ensures updated.help <==> flags.help || 'h' in argument
    ensures updated.lineNumbers <==> flags.lineNumbers && 'n' !in argument
    ensures updated.ascii <==> flags.ascii && 'c' !in argument
    ensures updated.inline <==> flags.inline || 'i' in argument
  {
    var displayHelp := flags.help;
    var displayLineNumbers := flags.lineNumbers;
    var displayAscii := flags.ascii;
    var displayInline := flags.inline;
    if 'h' in argument {
      displayHelp := true;
    }
    if 'n' in argument {
      displayLineNumbers := false;
    }
    if 'c' in argument {
      displayAscii := false;
    }
    if 'i' in argument {
      displayInline := true;
    }
    updated := Flags(displayHelp, displayLineNumbers, displayAscii, displayInline);
  }

  /** Scans the arguments after the program name. Options are recognised
      only before the first positional argument; they switch flags by the
      letters h, n, c and i they contain. The first non-empty positional
      argument is the file path and every later argument overwrites the
      range. */
  method ParseArgs(args: seq<string>) returns (flags: Flags, filePath: string, range: string)
    ensures var rest := if args == [] then [] else args[1..];
            var n := LeadingOptions(rest);
            flags == Flags(HasFlag(rest[..n], 'h'), !HasFlag(rest[..n], 'n'),
                           !HasFlag(rest[..n], 'c'), HasFlag(rest[..n], 'i')) &&
            filePath == FilePathOf(rest[n..]) &&
            range == RangeArgOf(rest[n..])
  {
    flags := Flags(false, true, true, false);
    var optionsFlag := true;
    filePath := "";
    range := "";
    var rest := if args == [] then [] else args[1..];
    ghost var seen := 0;
    assert rest[..0] == [] && rest[0..0] == [];
    var i := 0;
    while i < |rest|
      invariant ScanState(rest, i, seen, optionsFlag, flags, filePath, range)
    {
      var argument := rest[i];
      ghost var seen0, optionsFlag0, flags0, filePath0, range0 := seen, optionsFlag, flags, filePath, range;
      if optionsFlag && IsOption(argument) {
        flags := ApplyOption(argument, flags);
        seen := seen + 1;
      } else if filePath == "" {
        filePath := argument;
        optionsFlag := false;
      } else {
        range := argument;
      }
      ScanStep(rest, i, seen0, optionsFlag0, flags0, filePath0, range0,
               seen, optionsFlag, flags, filePath, range);
      i := i + 1;
    }
    ScanDone(rest, seen, optionsFlag, flags, filePath, range);
  }

  /** Once every argument is scanned, the state says what ParseArgs promises. */
  lemma ScanDone(rest: seq<string>, seen: nat, optionsFlag: bool, flags: Flags, filePath: string, range: string)
    requires ScanState(rest, |rest|, seen, optionsFlag, flags, filePath, range)
    ensures var n := LeadingOptions(rest);
            flags == Flags(HasFlag(rest[..n], 'h'), !HasFlag(rest[..n], 'n'),
                           !HasFlag(rest[..n], 'c'), HasFlag(rest[..n], 'i')) &&
            filePath == FilePathOf(rest[n..]) &&
            range == RangeArgOf(rest[n..])
  {
    var n := LeadingOptions(rest);
    assert rest[n..|rest|] == rest[n..];
    assert ScanSpec(rest, |rest|) == ScanView(n, |rest| <= n, FlagsOf(rest[..n]),
                                              FilePathOf(rest[n..]), RangeArgOf(rest[n..]));
    FlagsOfMeaning(rest[..n]);
  }

  /** The switches after the given option arguments, one at a time. */
  function FlagsOf(options: seq<string>): Flags {
    if options == [] then Flags(false, true, true, false)
    else
      var f := FlagsOf(options[..|options| - 1]);
      var arg := options[|options| - 1];
      Flags(f.help || 'h' in arg, f.lineNumbers && 'n' !in arg,
            f.ascii && 'c' !in arg, f.inline || 'i' in arg)
  }

  lemma FlagsOfAppend(options: seq<string>, arg: string)
    ensures FlagsOf(options + [arg]) ==
              Flags(FlagsOf(options).help || 'h' in arg, FlagsOf(options).lineNumbers && 'n' !in arg,
                    FlagsOf(options).ascii && 'c' !in arg, FlagsOf(options).inline || 'i' in arg)
  {
    assert (options + [arg])[..|options|] == options;
  }

  /** Each switch is on (or off, for the ones that default to on) exactly
      when some option argument contains its letter. */
  lemma {:induction false} FlagsOfMeaning(options: seq<string>)
    ensures FlagsOf(options) == Flags(HasFlag(options, 'h'), !HasFlag(options, 'n'),
                                      !HasFlag(options, 'c'), HasFlag(options, 'i'))
  {
    if options != [] {
      var prefix := options[..|options| - 1];
      var arg := options[|options| - 1];
      assert options == prefix + [arg];
      FlagsOfMeaning(prefix);
      HasFlagAppend(prefix, arg, 'h');
      HasFlagAppend(prefix, arg, 'n');
      HasFlagAppend(prefix, arg, 'c');
      HasFlagAppend(prefix, arg, 'i');
    }
  }

  lemma HasFlagAppend(options: seq<string>, arg: string, c: char)
    ensures HasFlag(options + [arg], c) <==> HasFlag(options, c) || c in arg
  {
    if HasFlag(options, c) {
      var j :| 0 <= j < |options| && c in options[j];
      assert (options + [arg])[j] == options[j];
    }
    if c in arg {
      assert (options + [arg])[|options|] == arg;
    }
  }

  // ---------------------------------------------------------------------
  // The range token resolved against a file
  // ---------------------------------------------------------------------

  /** A position token N with -fileSize <= N < fileSize, other than -1,
      selects exactly one byte: the byte at N, counted from the end of the
      file when N is negative. */
  lemma PositionSelectsOneByte(s: string, n: int, fileSize: nat)
    requires ParseI64(s) == Some(n) && fileSize <= I64_MAX
    requires -(fileSize as int) <= n < fileSize && n != -1
    ensures ParseRange(s).Ok?
    ensures ResolveRange(ParseRange(s).value.start, ParseRange(s).value.end, fileSize)
         == Ok(ByteRange(Offset(n, fileSize), Offset(n, fileSize) + 1))
  {
    ParseRangePosition(s, n);
    ResolveRangeMeaning(Some(n), Some(n + 1), fileSize);
  }

  /** "-1" selects the last byte of a non-empty file; on an empty file it
      resolves start to 2^64 - 1 and is refused as an invalid range. */
  lemma MinusOneSelectsLastByte(fileSize: nat)
    requires fileSize <= I64_MAX
    ensures ParseRange("-1") == Ok(RangeSpec(Some(-1), None))
    ensures fileSize > 0 ==>
              ResolveRange(Some(-1), None, fileSize) == Ok(ByteRange(fileSize - 1, fileSize))
    ensures fileSize == 0 ==>
              ResolveRange(Some(-1), None, fileSize) == Err(InvalidRange(U64_MODULUS - 1, 0))
  {
    ParseDecimalString(-1);
    assert DecimalString(-1) == "-1";
    ParseRangePosition("-1", -1);
  }

  /** On a 10-byte file "5", and equally "+05", selects [5, 6). */
  lemma PositionExample()
    ensures ParseRange("5") == Ok(RangeSpec(Some(5), Some(6)))
    ensures ParseRange("+05") == Ok(RangeSpec(Some(5), Some(6)))
    ensures ResolveRange(Some(5), Some(6), 10) == Ok(ByteRange(5, 6))
  {
    ParseDecimalString(5);
    assert DecimalString(5) == "5";
    ParseRangePosition("5", 5);
    assert DigitsValue("05") == 5 by {
      assert "05"[..1] == "0";
      assert "0"[..0] == "";
    }
    ParseRangePosition("+05", 5);
  }

  /** On a 10-byte file "2:" selects [2, 10). */
  lemma OpenEndExample()
    ensures ParseRange("2:") == Ok(RangeSpec(Some(2), None))
    ensures ResolveRange(Some(2), None, 10) == Ok(ByteRange(2, 10))
  {
    assert "2:" == "2" + ":" + "";
    ParseRangePair("2", "");
    assert DigitsValue("2") == 2 by { assert "2"[..0] == ""; }
  }

  /** On a 10-byte file ":-2" selects [0, 8). */
  lemma OpenStartExample()
    ensures ParseRange(":-2") == Ok(RangeSpec(None, Some(-2)))
    ensures ResolveRange(None, Some(-2), 10) == Ok(ByteRange(0, 8))
  {
    assert ":-2" == "" + ":" + "-2";
    ParseRangePair("", "-2");
    assert "-2"[1..] == "2";
    assert DigitsValue("2") == 2 by { assert "2"[..0] == ""; }
  }
}
