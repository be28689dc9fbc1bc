/**
  Quoting arguments for a Windows command line (runtime/windows-launcher/CommandLine.h and src/common/process.cpp),
  against a model of the C runtime's argv parser.
 */
module CommandLine {

  /** A UTF-16 code unit of a C string, so never zero. */
  type wchar = c: int | 0 < c < 0x1_0000 witness 1

  type text = seq<wchar>

  const SPACE: wchar := 0x20
  const TAB: wchar := 0x09
  const NEWLINE: wchar := 0x0A
  const VTAB: wchar := 0x0B
  const QUOTE: wchar := 0x22
  const BACKSLASH: wchar := 0x5C

  function Slashes(n: nat): (s: text)
    ensures |s| == n
  {
    if n == 0 then [] else [BACKSLASH] + Slashes(n - 1)
  }

  // ---- What the program prints ----

  predicate NeedsQuotes(arg: text) {
    arg == [] || SPACE in arg || TAB in arg || NEWLINE in arg || VTAB in arg || QUOTE in arg
  }

  /** The inside of a quoted argument, of which `pending` backslashes are already read. */
  function Body(arg: text, pending: nat): text {
    if arg == [] then Slashes(2 * pending)
    else if arg[0] == BACKSLASH then Body(arg[1..], pending + 1)
    else if arg[0] == QUOTE then Slashes(2 * pending + 1) + ([QUOTE] + Body(arg[1..], 0))
    else Slashes(pending) + ([arg[0]] + Body(arg[1..], 0))
  }

  function Quoted(arg: text): text {
    [QUOTE] + (Body(arg, 0) + [QUOTE])
  }

  function QuotedIfNeeded(arg: text): text {
    if NeedsQuotes(arg) then Quoted(arg) else arg
  }

  function Joined(args: seq<text>): text {
    if args == [] then []
    else if |args| == 1 then QuotedIfNeeded(args[0])
    else QuotedIfNeeded(args[0]) + ([SPACE] + Joined(args[1..]))
  }

  // ---- What the C runtime reads ----

  /** Two quotes in a row inside quotes are a quote; the runtimes differ on whether quoting goes on after it. */
  datatype DoubledQuote = StaysQuoted | EndsQuoted

  function SlashRun(s: text): (n: nat)
    ensures n <= |s| && s[..n] == Slashes(n) && (n < |s| ==> s[n] != BACKSLASH)
  {
    if s == [] || s[0] != BACKSLASH then 0 else
      var n := SlashRun(s[1..]);
      assert s[..n + 1] == [s[0]] + s[1..][..n];
      n + 1
  }

  predicate Blank(c: wchar) {
    c == SPACE || c == TAB
  }

  /** One argument and the text after it: n backslashes before a quote are n/2, and an odd one escapes it. */
  function ParseArg(s: text, quoted: bool, rule: DoubledQuote): (r: (text, text))
    ensures |r.1| <= |s|
    decreases |s|
  {
    var n := SlashRun(s);
    var t := s[n..];
    if t == [] then (Slashes(n), [])
    else if t[0] == QUOTE then
      if n % 2 == 1 then Emit(Slashes(n / 2) + [QUOTE], ParseArg(t[1..], quoted, rule))
      else if quoted && |t| > 1 && t[1] == QUOTE then
        Emit(Slashes(n / 2) + [QUOTE], ParseArg(t[2..], rule == StaysQuoted, rule))
      else Emit(Slashes(n / 2), ParseArg(t[1..], !quoted, rule))
    else if !quoted && Blank(t[0]) then (Slashes(n), t)
    else Emit(Slashes(n) + [t[0]], ParseArg(t[1..], quoted, rule))
  }

  function Emit(s: text, r: (text, text)): (text, text) {
    (s + r.0, r.1)
  }

  function SkipBlanks(s: text): (rest: text)
    ensures |rest| <= |s| && (rest != [] ==> !Blank(rest[0]))
  {
    if s != [] && Blank(s[0]) then SkipBlanks(s[1..]) else s
  }

  /** Any argument takes at least one character. */
  lemma ParseArgAdvances(s: text, rule: DoubledQuote)
    requires s != [] && !Blank(s[0])
    ensures |ParseArg(s, false, rule).1| < |s|
  {
  }

  function ParseArgs(s: text, rule: DoubledQuote): seq<text>
    decreases |s|
  {
    var t := SkipBlanks(s);
    if t == [] then [] else
      ParseArgAdvances(t, rule);
      var (arg, rest) := ParseArg(t, false, rule);
      [arg] + ParseArgs(rest, rule)
  }

  /** The program name: quotes only switch blanks on and off, and backslashes are ordinary. */
  function ParseProgram(s: text, quoted: bool): (text, text) {
    if s == [] then ([], [])
    else if s[0] == QUOTE then ParseProgram(s[1..], !quoted)
    else if !quoted && Blank(s[0]) then ([], s[1..])
    else Emit([s[0]], ParseProgram(s[1..], quoted))
  }

  function ParseCommandLine(s: text, rule: DoubledQuote): seq<text> {
    var (program, rest) := ParseProgram(s, false);
    [program] + ParseArgs(rest, rule)
  }

  // ---- Reading back one argument ----

  /** What may follow an argument: nothing, or a space. */
  predicate Follows(rest: text) {
    rest == [] || rest[0] == SPACE
  }

  lemma OneMoreSlash(s: text)
    ensures SlashRun([BACKSLASH] + s) == SlashRun(s) + 1
  {
    assert ([BACKSLASH] + s)[1..] == s;
  }

  lemma {:induction false} SlashRunOf(k: nat, rest: text)
    requires rest == [] || rest[0] != BACKSLASH
    ensures SlashRun(Slashes(k) + rest) == k
  {
    if k == 0 {
      assert [] + rest == rest;
    } else {
      SlashRunOf(k - 1, rest);
      assert Slashes(k) + rest == [BACKSLASH] + (Slashes(k - 1) + rest);
      OneMoreSlash(Slashes(k - 1) + rest);
    }
  }

  lemma {:induction false} SlashThen(k: nat, s: text)
    ensures Slashes(k) + ([BACKSLASH] + s) == Slashes(k + 1) + s
  {
    assert Slashes(k + 1) + s == [BACKSLASH] + (Slashes(k) + s);
    if k == 0 {
    } else {
      SlashThen(k - 1, s);
      assert Slashes(k) + ([BACKSLASH] + s) == [BACKSLASH] + (Slashes(k - 1) + ([BACKSLASH] + s));
    }
  }

  /** One turn of the parser: backslashes and the character after them. */
  lemma ParseStep(k: nat, c: wchar, after: text, quoted: bool, rule: DoubledQuote)
    requires c != BACKSLASH && (c == QUOTE && quoted && k % 2 == 0 ==> Follows(after))
    ensures ParseArg(Slashes(k) + ([c] + after), quoted, rule) ==
            if c == QUOTE && k % 2 == 1 then Emit(Slashes(k / 2) + [QUOTE], ParseArg(after, quoted, rule))
            else if c == QUOTE then Emit(Slashes(k / 2), ParseArg(after, !quoted, rule))
            else if !quoted && Blank(c) then (Slashes(k), [c] + after)
            else Emit(Slashes(k) + [c], ParseArg(after, quoted, rule))
  {
    var s, t := Slashes(k) + ([c] + after), [c] + after;
    SlashRunOf(k, t);
    assert s[k..] == t && t[1..] == after;
  }

  lemma ParseEnd(k: nat, quoted: bool, rule: DoubledQuote)
    ensures ParseArg(Slashes(k), quoted, rule) == (Slashes(k), [])
  {
    SlashRunOf(k, []);
    assert Slashes(k) + [] == Slashes(k);
  }

  lemma ParseFollowing(k: nat, rest: text, rule: DoubledQuote)
    requires Follows(rest)
    ensures ParseArg(Slashes(k) + rest, false, rule) == (Slashes(k), rest)
  {
    if rest == [] {
      ParseEnd(k, false, rule);
      assert Slashes(k) + rest == Slashes(k);
    } else {
      ParseStep(k, rest[0], rest[1..], false, rule);
      assert [rest[0]] + rest[1..] == rest;
    }
  }

  /** One turn of the printer. */
  lemma BodyStep(arg: text, pending: nat, tail: text)
    requires arg != [] && arg[0] != BACKSLASH
    ensures var k := if arg[0] == QUOTE then 2 * pending + 1 else pending;
            Body(arg, pending) + tail == Slashes(k) + ([arg[0]] + (Body(arg[1..], 0) + tail))
  {
    hide Slashes;
  }

  lemma BodyStart(arg: text, pending: nat)
    ensures arg == [] ==> Body(arg, pending) == Slashes(2 * pending)
    ensures arg != [] && arg[0] == BACKSLASH ==> Body(arg, pending) == Body(arg[1..], pending + 1)
  {
  }

  /** Inside quotes the parser recovers the pending backslashes and the argument, and the closing quote ends it. */
  lemma {:induction false} BodyReadsBack(arg: text, pending: nat, rest: text, rule: DoubledQuote)
    requires Follows(rest)
    ensures ParseArg(Body(arg, pending) + ([QUOTE] + rest), true, rule) == (Slashes(pending) + arg, rest)
    decreases arg
  {
    hide ParseArg, Slashes, Body;
    var tail := [QUOTE] + rest;
    BodyStart(arg, pending);
    if arg == [] {
      ParseStep(2 * pending, QUOTE, rest, true, rule);
      ParseFollowing(0, rest, rule);
      NoSlashes(rest);
    } else if arg[0] == BACKSLASH {
      BodyReadsBack(arg[1..], pending + 1, rest, rule);
      SlashThen(pending, arg[1..]);
      assert [BACKSLASH] + arg[1..] == arg;
    } else {
      var k := if arg[0] == QUOTE then 2 * pending + 1 else pending;
      var after := Body(arg[1..], 0) + tail;
      BodyReadsBack(arg[1..], 0, rest, rule);
      NoSlashes(arg[1..]);
      ParseStep(k, arg[0], after, true, rule);
      BodyStep(arg, pending, tail);
      assert [arg[0]] + arg[1..] == arg;
      assert (Slashes(pending) + [arg[0]]) + arg[1..] == Slashes(pending) + arg;
    }
  }

  lemma NoSlashes(s: text)
    ensures Slashes(0) + s == s
  {
  }

  /** A quoted argument always reads back as itself, whichever rule the runtime has. */
  lemma QuotedReadsBack(arg: text, rest: text, rule: DoubledQuote)
    requires Follows(rest)
    ensures ParseArg(Quoted(arg) + rest, false, rule) == (arg, rest)
  {
    hide ParseArg, Body;
    var inside := Body(arg, 0) + ([QUOTE] + rest);
    ParseStep(0, QUOTE, inside, false, rule);
    assert Quoted(arg) + rest == [QUOTE] + inside;
    BodyReadsBack(arg, 0, rest, rule);
    NoSlashes([QUOTE] + inside);
    NoSlashes(arg);
  }

  lemma {:induction false} PlainReadsBack(arg: text, rest: text, rule: DoubledQuote)
    requires SPACE !in arg && TAB !in arg && QUOTE !in arg && Follows(rest)
    ensures ParseArg(arg + rest, false, rule) == (arg, rest)
    decreases arg
  {
    hide ParseArg, Slashes, SlashRun;
    var n := SlashRun(arg);
    assert arg == Slashes(n) + arg[n..];
    if n == |arg| {
      ParseFollowing(n, rest, rule);
      assert arg == Slashes(n);
    } else {
      var c, after := arg[n], arg[n + 1..];
      assert c in arg;
      PlainReadsBack(after, rest, rule);
      ParseStep(n, c, after + rest, false, rule);
      assert arg + rest == Slashes(n) + ([c] + (after + rest));
      assert arg == (Slashes(n) + [c]) + after;
    }
  }

  lemma ArgumentReadsBack(arg: text, rest: text, rule: DoubledQuote)
    requires Follows(rest)
    ensures ParseArg(QuotedIfNeeded(arg) + rest, false, rule) == (arg, rest)
    ensures QuotedIfNeeded(arg) != [] && !Blank(QuotedIfNeeded(arg)[0])
  {
    if NeedsQuotes(arg) {
      QuotedReadsBack(arg, rest, rule);
    } else {
      PlainReadsBack(arg, rest, rule);
      assert arg[0] in arg;
    }
  }

  // ---- Reading back whole command lines ----

  lemma ParseOne(s: text, arg: text, rest: text, rule: DoubledQuote)
    requires s != [] && !Blank(s[0]) && ParseArg(s, false, rule) == (arg, rest)
    ensures ParseArgs(s, rule) == [arg] + ParseArgs(rest, rule)
  {
    hide ParseArg;
  }

  lemma ParseSpace(s: text, rule: DoubledQuote)
    ensures ParseArgs([SPACE] + s, rule) == ParseArgs(s, rule)
  {
    hide ParseArg;
    assert ([SPACE] + s)[1..] == s;
    assert SkipBlanks([SPACE] + s) == SkipBlanks(s);
  }

  /** Every list of arguments after the program name reads back as itself. */
  lemma {:induction false} ArgumentsReadBack(args: seq<text>, rule: DoubledQuote)
    ensures ParseArgs(Joined(args), rule) == args
    decreases |args|
  {
    hide ParseArg, QuotedIfNeeded, SkipBlanks;
    if args == [] {
    } else {
      var first := QuotedIfNeeded(args[0]);
      var rest := if |args| == 1 then [] else [SPACE] + Joined(args[1..]);
      assert Joined(args) == first + rest by {
        assert first + [] == first;
      }
      ArgumentReadsBack(args[0], rest, rule);
      ParseOne(first + rest, args[0], rest, rule);
      ArgumentsReadBack(args[1..], rule);
      if |args| > 1 {
        ParseSpace(Joined(args[1..]), rule);
      }
    }
  }

  // ---- Which arguments need quotes ----

  predicate Bare(s: text) {
    SPACE !in s && TAB !in s && QUOTE !in s
  }

  /** An argument is shorter than the text it is read from, unless that has no quote and no blank outside quotes. */
  ghost predicate Shortened(s: text, quoted: bool, r: (text, text)) {
    && |r.0| + |r.1| <= |s|
    && (|r.0| + |r.1| == |s| ==>
          QUOTE !in s[..|s| - |r.1|] && (!quoted ==> SPACE !in s[..|s| - |r.1|] && TAB !in s[..|s| - |r.1|]))
  }

  lemma {:induction false} SlashesAreBare(n: nat)
    ensures Bare(Slashes(n))
  {
    if n == 0 {
    } else {
      SlashesAreBare(n - 1);
    }
  }

  /** What is read after a first part that is kept as it is. */
  lemma ShortenedBehind(first: text, s: text, quoted: bool, r: (text, text))
    requires Shortened(s, quoted, r) && QUOTE !in first && (!quoted ==> SPACE !in first && TAB !in first)
    ensures Shortened(first + s, quoted, Emit(first, r))
  {
    if |r.0| + |r.1| == |s| {
      assert (first + s)[..|first + s| - |r.1|] == first + s[..|s| - |r.1|];
    }
  }

  lemma SlashesShorten(n: nat, t: text, quoted: bool)
    ensures Shortened(Slashes(n) + t, quoted, (Slashes(n), t))
  {
    SlashesAreBare(n);
    assert (Slashes(n) + t)[..n] == Slashes(n);
  }

  /** The parser's rule at the front of a text. */
  lemma ParseArgByRun(s: text, quoted: bool, rule: DoubledQuote)
    ensures var n := SlashRun(s);
            var t := s[n..];
            ParseArg(s, quoted, rule) ==
            if t == [] then (Slashes(n), [])
            else if t[0] == QUOTE then
              if n % 2 == 1 then Emit(Slashes(n / 2) + [QUOTE], ParseArg(t[1..], quoted, rule))
              else if quoted && |t| > 1 && t[1] == QUOTE then
                Emit(Slashes(n / 2) + [QUOTE], ParseArg(t[2..], rule == StaysQuoted, rule))
              else Emit(Slashes(n / 2), ParseArg(t[1..], !quoted, rule))
            else if !quoted && Blank(t[0]) then (Slashes(n), t)
            else Emit(Slashes(n) + [t[0]], ParseArg(t[1..], quoted, rule))
  {
    hide Slashes, SlashRun, Emit;
  }

  lemma {:induction false} ParseArgShortens(s: text, quoted: bool, rule: DoubledQuote)
    ensures Shortened(s, quoted, ParseArg(s, quoted, rule))
    decreases |s|
  {
    hide ParseArg, Emit, Shortened, Slashes, SlashRun;
    var n := SlashRun(s);
    var t := s[n..];
    ParseArgByRun(s, quoted, rule);
    assert s == Slashes(n) + t;
    if t == [] || (t[0] != QUOTE && !quoted && Blank(t[0])) {
      SlashesShorten(n, t, quoted);
    } else if t[0] != QUOTE {
      var first := Slashes(n) + [t[0]];
      ParseArgShortens(t[1..], quoted, rule);
      SlashesAreBare(n);
      ShortenedBehind(first, t[1..], quoted, ParseArg(t[1..], quoted, rule));
      assert s == first + t[1..];
    } else if n % 2 == 1 {
      ParseArgShortens(t[1..], quoted, rule);
      QuoteShortens(s, quoted, Slashes(n / 2) + [QUOTE], t[1..], quoted, ParseArg(t[1..], quoted, rule));
    } else if quoted && |t| > 1 && t[1] == QUOTE {
      var still := rule == StaysQuoted;
      ParseArgShortens(t[2..], still, rule);
      QuoteShortens(s, quoted, Slashes(n / 2) + [QUOTE], t[2..], still, ParseArg(t[2..], still, rule));
    } else {
      ParseArgShortens(t[1..], !quoted, rule);
      QuoteShortens(s, quoted, Slashes(n / 2), t[1..], !quoted, ParseArg(t[1..], !quoted, rule));
    }
  }

  /** A quote always costs a character. */
  lemma QuoteShortens(s: text, quoted: bool, first: text, rest: text, q: bool, r: (text, text))
    requires Shortened(rest, q, r) && |first| + |rest| < |s|
    ensures Shortened(s, quoted, Emit(first, r))
  {
  }

  lemma {:induction false} SkippedIsSuffix(s: text)
    ensures |SkipBlanks(s)| == |s| ==> SkipBlanks(s) == s
  {
  }

  lemma FirstArgument(s: text, rule: DoubledQuote)
    ensures ParseArgs([], rule) == []
    ensures ParseArgs(s, rule) != [] ==>
              SkipBlanks(s) != [] && ParseArgs(s, rule)[0] == ParseArg(SkipBlanks(s), false, rule).0
  {
    hide ParseArg;
  }

  /** Without quotes, an argument reads back as itself exactly when it is not empty and has no blank and no quote. */
  lemma BareReadsBack(arg: text, rule: DoubledQuote)
    ensures ParseArgs(arg, rule) == [arg] <==> arg != [] && Bare(arg)
  {
    hide ParseArg, ParseArgs, SkipBlanks;
    FirstArgument(arg, rule);
    if arg != [] && Bare(arg) {
      assert arg[0] in arg;
      PlainReadsBack(arg, [], rule);
      assert arg + [] == arg;
      ParseOne(arg, arg, [], rule);
    }
    if ParseArgs(arg, rule) == [arg] {
      ParseArgShortens(SkipBlanks(arg), false, rule);
      SkippedIsSuffix(arg);
      assert arg[..|arg|] == arg;
    }
  }

  /** So an argument is quoted exactly when it would not read back without, or has a line break or vertical tab. */
  lemma QuotesAreNeeded(arg: text, rule: DoubledQuote)
    ensures NeedsQuotes(arg) <==> ParseArgs(arg, rule) != [arg] || NEWLINE in arg || VTAB in arg
  {
    BareReadsBack(arg, rule);
  }

  /** A line feed is quoted, though without quotes it would be read as it is. */
  lemma LineFeedIsQuoted(rule: DoubledQuote)
    ensures NeedsQuotes([NEWLINE]) && ParseArgs([NEWLINE], rule) == [[NEWLINE]]
  {
    BareReadsBack([NEWLINE], rule);
  }

  predicate EndsInBackslash(s: text) {
    s != [] && s[|s| - 1] == BACKSLASH
  }

  // ---- The program name ----

  /** The parser of the program name drops every quote. */
  lemma {:induction false} ProgramHasNoQuote(s: text, quoted: bool)
    ensures QUOTE !in ParseProgram(s, quoted).0
  {
    if s == [] {
    } else {
      ProgramHasNoQuote(s[1..], if s[0] == QUOTE then !quoted else quoted);
    }
  }

  lemma {:induction false} ProgramCopies(s: text, rest: text, quoted: bool)
    requires QUOTE !in s && (quoted || (SPACE !in s && TAB !in s))
    ensures ParseProgram(s + rest, quoted) == Emit(s, ParseProgram(rest, quoted))
  {
    var r := ParseProgram(rest, quoted).0;
    if s == [] {
      assert s + rest == rest && s + r == r;
    } else {
      assert [s[0]] + (s[1..] + r) == s + r;
      assert (s + rest)[1..] == s[1..] + rest;
      assert s[0] in s;
      ProgramCopies(s[1..], rest, quoted);
    }
  }

  /** Backslashes that no quote follows are printed as they are. */
  lemma {:induction false} BodyIsPlain(arg: text, pending: nat)
    requires QUOTE !in arg && arg != [] && !EndsInBackslash(arg)
    ensures Body(arg, pending) == Slashes(pending) + arg
    decreases arg
  {
    var more := arg[1..];
    assert arg == [arg[0]] + more;
    if arg[0] == BACKSLASH {
      BodyIsPlain(more, pending + 1);
      SlashThen(pending, more);
    } else if more != [] {
      BodyIsPlain(more, 0);
      NoSlashes(more);
    }
  }

  /** Backslashes at the end are doubled. */
  lemma {:induction false} BodyIsLonger(arg: text, pending: nat)
    requires QUOTE !in arg && EndsInBackslash(arg)
    ensures |Body(arg, pending)| > pending + |arg|
    decreases arg
  {
    if |arg| > 1 {
      BodyIsLonger(arg[1..], if arg[0] == BACKSLASH then pending + 1 else 0);
    }
  }

  lemma {:induction false} NoQuoteInSlashes(n: nat)
    ensures QUOTE !in Slashes(n)
  {
    if n == 0 {
    } else {
      NoQuoteInSlashes(n - 1);
    }
  }

  lemma {:induction false} BodyHasNoQuote(arg: text, pending: nat)
    requires QUOTE !in arg
    ensures QUOTE !in Body(arg, pending)
    decreases arg
  {
    NoQuoteInSlashes(pending);
    NoQuoteInSlashes(2 * pending);
    if arg == [] {
    } else {
      BodyHasNoQuote(arg[1..], if arg[0] == BACKSLASH then pending + 1 else 0);
    }
  }

  /** A program name the parser gives back: unquoted, or without a quote and without a backslash at its end. */
  predicate PlainProgram(program: text) {
    !NeedsQuotes(program) || (QUOTE !in program && !EndsInBackslash(program))
  }

  lemma QuotedProgram(program: text, rest: text)
    requires QUOTE !in program && Follows(rest)
    ensures ParseProgram(Quoted(program) + rest, false) == (Body(program, 0), if rest == [] then [] else rest[1..])
  {
    hide Body;
    var body, after := Body(program, 0), [QUOTE] + rest;
    BodyHasNoQuote(program, 0);
    assert Quoted(program) + rest == [QUOTE] + (body + after);
    assert ([QUOTE] + (body + after))[1..] == body + after;
    ProgramCopies(body, after, true);
    assert after[1..] == rest;
    assert body + [] == body;
  }

  lemma ProgramReadsBack(program: text, rest: text)
    requires Follows(rest)
    ensures var (name, after) := ParseProgram(QuotedIfNeeded(program) + rest, false);
      && (name == program <==> PlainProgram(program))
      && (PlainProgram(program) ==> after == if rest == [] then [] else rest[1..])
  {
    hide ParseProgram, Body;
    ProgramHasNoQuote(QuotedIfNeeded(program) + rest, false);
    if !NeedsQuotes(program) {
      ProgramCopies(program, rest, false);
      ProgramEnds(rest);
      assert program + [] == program;
    } else if QUOTE !in program {
      QuotedProgram(program, rest);
      if EndsInBackslash(program) {
        BodyIsLonger(program, 0);
      } else if program == [] {
        EmptyBody();
      } else {
        BodyIsPlain(program, 0);
        NoSlashes(program);
      }
    }
  }

  lemma EmptyBody()
    ensures Body([], 0) == []
  {
  }

  lemma ProgramEnds(rest: text)
    requires Follows(rest)
    ensures ParseProgram(rest, false) == ([], if rest == [] then [] else rest[1..])
  {
  }

  /** The whole command line reads back as its arguments exactly when the program name does. */
  lemma CommandLineReadsBack(args: seq<text>, rule: DoubledQuote)
    requires args != []
    ensures ParseCommandLine(Joined(args), rule) == args <==> PlainProgram(args[0])
  {
    hide ParseProgram, ParseArgs, PlainProgram, QuotedIfNeeded;
    var rest := if |args| == 1 then [] else [SPACE] + Joined(args[1..]);
    assert Joined(args) == QuotedIfNeeded(args[0]) + rest by {
      assert QuotedIfNeeded(args[0]) + [] == QuotedIfNeeded(args[0]);
    }
    ProgramReadsBack(args[0], rest);
    if PlainProgram(args[0]) {
      ArgumentsReadBack(args[1..], rule);
      assert rest != [] ==> rest[1..] == Joined(args[1..]);
      assert args == [args[0]] + args[1..];
    }
  }

  /** A directory with a blank in its name and a backslash behind it, say, is never read as the program's name. */
  lemma DirectoryIsLost(directory: text, args: seq<text>, rule: DoubledQuote)
    requires SPACE in directory && EndsInBackslash(directory)
    ensures ParseCommandLine(Joined([directory] + args), rule) != [directory] + args
  {
    hide ParseCommandLine, Joined;
    CommandLineReadsBack([directory] + args, rule);
  }

  // ---- What is printed, in characters ----

  /** That many backslashes. */
  function Backslashes(n: nat): (s: text)
    ensures |s| == n
  {
    seq(n, _ => 0x5C)
  }

  predicate NoQuoteOrBackslash(s: text) {
    forall i | 0 <= i < |s| :: s[i] != 0x22 && s[i] != 0x5C
  }

  lemma {:induction false} SlashesAreBackslashes(n: nat)
    ensures Slashes(n) == Backslashes(n)
  {
    if n == 0 {
    } else {
      SlashesAreBackslashes(n - 1);
    }
  }

  lemma {:induction false} BodyCopies(s: text, rest: text)
    requires NoQuoteOrBackslash(s)
    ensures Body(s + rest, 0) == s + Body(rest, 0)
  {
    if s == [] {
      assert s + rest == rest && s + Body(rest, 0) == Body(rest, 0);
    } else {
      assert (s + rest)[1..] == s[1..] + rest;
      BodyCopies(s[1..], rest);
      assert Slashes(0) + ([s[0]] + Body(s[1..] + rest, 0)) == [s[0]] + Body(s[1..] + rest, 0);
      assert s == [s[0]] + s[1..];
    }
  }

  lemma {:induction false} BodyCounts(n: nat, rest: text, pending: nat)
    ensures Body(Backslashes(n) + rest, pending) == Body(rest, pending + n)
  {
    if n == 0 {
      assert Backslashes(0) + rest == rest;
    } else {
      assert (Backslashes(n) + rest)[1..] == Backslashes(n - 1) + rest;
      BodyCounts(n - 1, rest, pending + 1);
    }
  }

  lemma BodyStops(rest: text, pending: nat)
    ensures Body([0x22] + rest, pending) == Backslashes(2 * pending + 1) + ([0x22] + Body(rest, 0))
    ensures Body([], pending) == Backslashes(2 * pending)
  {
    assert ([0x22] + rest)[1..] == rest;
    SlashesAreBackslashes(2 * pending + 1);
    SlashesAreBackslashes(2 * pending);
  }

  /** Backslashes before a quote are doubled, and one more escapes it. */
  lemma PrintedQuote(s: text, n: nat, rest: text)
    requires NoQuoteOrBackslash(s)
    ensures Body(s + (Backslashes(n) + ([0x22] + rest)), 0) == s + (Backslashes(2 * n + 1) + ([0x22] + Body(rest, 0)))
  {
    hide Body;
    BodyCopies(s, Backslashes(n) + ([0x22] + rest));
    BodyCounts(n, [0x22] + rest, 0);
    BodyStops(rest, n);
  }

  /** Backslashes at the end are doubled. */
  lemma PrintedEnd(s: text, n: nat)
    requires NoQuoteOrBackslash(s)
    ensures Body(s + Backslashes(n), 0) == s + Backslashes(2 * n)
  {
    hide Body;
    assert Backslashes(n) + [] == Backslashes(n);
    BodyCopies(s, Backslashes(n));
    BodyCounts(n, [], 0);
    BodyStops([], n);
  }

  /** All others are printed as they are. */
  lemma PrintedInside(s: text, n: nat, c: wchar, rest: text)
    requires NoQuoteOrBackslash(s) && c != 0x22 && c != 0x5C
    ensures Body(s + (Backslashes(n) + ([c] + rest)), 0) == s + (Backslashes(n) + ([c] + Body(rest, 0)))
  {
    BodyAt(n, c, rest);
    hide Body;
    BodyCopies(s, Backslashes(n) + ([c] + rest));
    BodyCounts(n, [c] + rest, 0);
  }

  lemma BodyAt(n: nat, c: wchar, rest: text)
    requires c != 0x22 && c != 0x5C
    ensures Body([c] + rest, n) == Backslashes(n) + ([c] + Body(rest, 0))
  {
    assert ([c] + rest)[1..] == rest;
    SlashesAreBackslashes(n);
  }

  /** An argument without either is printed as it is, quoted if it is empty or has a blank, a tab or a line break. */
  lemma PrintedPlain(arg: text)
    requires NoQuoteOrBackslash(arg)
    ensures QuotedIfNeeded(arg) ==
            if arg == [] || (exists i :: 0 <= i < |arg| && arg[i] in [0x20, 0x09, 0x0A, 0x0B])
            then [0x22] + (arg + [0x22]) else arg
  {
    BodyCopies(arg, []);
    EmptyBody();
    assert arg + [] == arg;
  }

  // ---- The program's loops ----

  /** `QuoteArgument`. */
  method QuoteArgument(argument: text) returns (result: text)
    ensures result == QuotedIfNeeded(argument)
  {
    if !NeedsQuotes(argument) {
      return argument;
    }
    result := [QUOTE];
    var backslashes := 0;
    for i := 0 to |argument|
      invariant [QUOTE] + Body(argument, 0) == result + Body(argument[i..], backslashes)
    {
      var c := argument[i];
      assert argument[i..][0] == c && argument[i..][1..] == argument[i + 1..];
      if c == BACKSLASH {
        backslashes := backslashes + 1;
        continue;
      }
      if c == QUOTE {
        result := result + Slashes(backslashes * 2 + 1) + [QUOTE];
        backslashes := 0;
        continue;
      }
      result := result + Slashes(backslashes);
      backslashes := 0;
      result := result + [c];
    }
    result := result + Slashes(backslashes * 2);
    result := result + [QUOTE];
  }

  /** `quote_windows_arg`, which quotes every argument. */
  method QuoteWindowsArg(arg: text) returns (result: text)
    ensures result == Quoted(arg)
  {
    result := [QUOTE];
    var slashes := 0;
    for i := 0 to |arg|
      invariant [QUOTE] + Body(arg, 0) == result + Body(arg[i..], slashes)
    {
      var c := arg[i];
      assert arg[i..][0] == c && arg[i..][1..] == arg[i + 1..];
      if c == BACKSLASH {
        slashes := slashes + 1;
        continue;
      }
      result := result + Slashes(if c == QUOTE then slashes * 2 + 1 else slashes);
      slashes := 0;
      result := result + [c];
    }
    result := result + Slashes(slashes * 2);
    result := result + [QUOTE];
  }

  /** `BuildCommandLine`. */
  method BuildCommandLine(argv: seq<text>, firstArgument: nat) returns (result: text)
    requires firstArgument <= |argv|
    ensures result == Joined(argv[firstArgument..])
  {
    hide Joined, JoinedOn, QuotedIfNeeded;
    result := [];
    JoinedFirst(argv[firstArgument..]);
    for index := firstArgument to |argv|
      invariant Joined(argv[firstArgument..]) == result + JoinedOn(argv[index..], index > firstArgument)
    {
      JoinedStep(result, argv[index..], index > firstArgument);
      if index > firstArgument {
        result := result + [SPACE];
      }
      var quoted := QuoteArgument(argv[index]);
      assert argv[index..][0] == argv[index] && argv[index..][1..] == argv[index + 1..];
      result := result + quoted;
    }
    NothingJoined(result);
  }

  /** The arguments still to be printed, after a space if others came before. */
  function JoinedOn(args: seq<text>, more: bool): text {
    if args == [] then [] else (if more then [SPACE] else []) + Joined(args)
  }

  lemma JoinedFirst(args: seq<text>)
    ensures [] + JoinedOn(args, false) == Joined(args)
  {
  }

  lemma JoinedStep(out: text, args: seq<text>, more: bool)
    requires args != []
    ensures out + JoinedOn(args, more) ==
            ((if more then out + [SPACE] else out) + QuotedIfNeeded(args[0])) + JoinedOn(args[1..], true)
  {
    hide QuotedIfNeeded;
  }

  lemma NothingJoined(out: text)
    ensures out + JoinedOn([], true) == out == out + JoinedOn([], false)
  {
  }
}
