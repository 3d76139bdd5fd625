/** Windows command-line quoting, against the C runtime's rules for splitting a command line. */
module CommandLine {
  import opened Wrappers

  datatype QuoteError = Refused

  const QUOTE: char := '"'
  const SLASH: char := '\\'

  function Slashes(n: nat): (r: string)
    ensures |r| == n
  {
    seq(n, _ => '\\')
  }

  predicate Blank(c: char) { c == ' ' || c == '\t' }

  // -------------------------------------------------------------------------
  // Splitting: Microsoft, "Parsing C command-line arguments"

  /** The arguments after the program name. */
  function Arguments(text: string): (args: seq<string>)
    decreases |text|, 1
  {
    if text == "" then []
    else if Blank(text[0]) then Arguments(text[1..])
    else Scan(text, false, 0, "")
  }

  /**
   Inside an argument: `arg` is what it has so far, `slashes` how many backslashes were just read. Backslashes
   are literal unless a quote follows: then each pair is one backslash, an odd one makes the quote literal, and
   otherwise the quote opens or closes a quoted part, within which two quotes are a literal one.
   */
  function Scan(text: string, quoted: bool, slashes: nat, arg: string): (args: seq<string>)
    decreases |text|, 0
  {
    if text == "" then [arg + Slashes(slashes)]
    else if text[0] == '\\' then Scan(text[1..], quoted, slashes + 1, arg)
    else if text[0] == '"' then
      if slashes % 2 == 1 then Scan(text[1..], quoted, 0, arg + Slashes(slashes / 2) + ['"'])
      else if quoted && |text| > 1 && text[1] == '"' then Scan(text[2..], quoted, 0, arg + Slashes(slashes / 2) + ['"'])
      else Scan(text[1..], !quoted, 0, arg + Slashes(slashes / 2))
    else if !quoted && Blank(text[0]) then [arg + Slashes(slashes)] + Arguments(text[1..])
    else Scan(text[1..], quoted, 0, arg + Slashes(slashes) + [text[0]])
  }

  /** The program name, for which backslashes mean nothing and quotes only group, and the text after it. */
  function Program(text: string, quoted: bool, name: string): (r: (string, string)) {
    if text == "" then (name, "")
    else if text[0] == '"' then Program(text[1..], !quoted, name)
    else if !quoted && Blank(text[0]) then (name, text[1..])
    else Program(text[1..], quoted, name + [text[0]])
  }

  function Split(text: string): (words: seq<string>) {
    var (name, rest) := Program(text, false, "");
    [name] + Arguments(rest)
  }

  // -------------------------------------------------------------------------
  // Quoting

  /** The quoted form of `value` behind its opening quote, when `slashes` backslashes are waiting for what follows. */
  function Escape(value: string, slashes: nat): (r: string) {
    if value == "" then Slashes(2 * slashes) + [QUOTE]
    else if value[0] == SLASH then Escape(value[1..], slashes + 1)
    else if value[0] == QUOTE then Slashes(2 * slashes + 1) + [QUOTE] + Escape(value[1..], 0)
    else Slashes(slashes) + [value[0]] + Escape(value[1..], 0)
  }

  function Quoted(value: string): string { [QUOTE] + Escape(value, 0) }

  function QuotedAll(args: seq<string>): string {
    if args == [] then "" else " " + Quoted(args[0]) + QuotedAll(args[1..])
  }

  predicate HasNul(value: string) { '\0' in value }

  method Quote(value: string) returns (r: Result<string, QuoteError>)
    ensures r == if '\0' in value then Failure(Refused) else Success(Quoted(value))
  {
    if HasNul(value) {
      return Failure(Refused);
    }
    var out, slashes := [QUOTE], 0;
    var i := 0;
    assert value[0..] == value;
    while i < |value|
      invariant 0 <= i <= |value|
      invariant out + Escape(value[i..], slashes) == Quoted(value)
    {
      var ch := value[i];
      ghost var rest := value[i + 1..];
      assert value[i..][0] == ch && value[i..][1..] == rest;
      if ch == SLASH {
        slashes := slashes + 1;
      } else {
        if ch == QUOTE {
          Regroup(out, Slashes(slashes * 2 + 1), [ch], Escape(rest, 0));
          out := out + Slashes(slashes * 2 + 1) + [QUOTE];
        } else {
          Regroup(out, Slashes(slashes), [ch], Escape(rest, 0));
          out := out + Slashes(slashes) + [ch];
        }
        slashes := 0;
      }
      i := i + 1;
    }
    assert out + (Slashes(2 * slashes) + [QUOTE]) == out + Slashes(slashes * 2) + [QUOTE];
    return Success(out + Slashes(slashes * 2) + [QUOTE]);
  }

  lemma Regroup(a: string, b: string, c: string, d: string)
    ensures a + (b + c + d) == a + b + c + d
  {
  }

  /** The command line of a program and its arguments; refused if any of them holds a NUL. */
  method Compose(path: string, arguments: seq<string>) returns (r: Result<string, QuoteError>)
    ensures r.Failure? <==> '\0' in path || exists a | a in arguments :: '\0' in a
    ensures r.Success? ==> r.value == Quoted(path) + QuotedAll(arguments)
  {
    var quoted := Quote(path);
    if quoted.Failure? {
      return quoted;
    }
    var text := quoted.value;
    var i := 0;
    assert arguments[0..] == arguments;
    while i < |arguments|
      invariant 0 <= i <= |arguments|
      invariant forall k | 0 <= k < i :: !HasNul(arguments[k])
      invariant text + QuotedAll(arguments[i..]) == Quoted(path) + QuotedAll(arguments)
    {
      quoted := Quote(arguments[i]);
      if quoted.Failure? {
        assert arguments[i] in arguments;
        return quoted;
      }
      assert arguments[i..][1..] == arguments[i + 1..];
      Regroup(text, " ", quoted.value, QuotedAll(arguments[i + 1..]));
      text := text + " " + quoted.value;
      i := i + 1;
    }
    assert text + "" == text;
    return Success(text);
  }

  // -------------------------------------------------------------------------
  // Splitting undoes quoting

  lemma {:induction false} ScanSlashes(n: nat, text: string, quoted: bool, slashes: nat, arg: string)
    ensures Scan(Slashes(n) + text, quoted, slashes, arg) == Scan(text, quoted, slashes + n, arg)
  {
    if n == 0 {
      assert Slashes(0) + text == text;
    } else {
      assert (Slashes(n) + text)[1..] == Slashes(n - 1) + text;
      ScanSlashes(n - 1, text, quoted, slashes + 1, arg);
    }
  }

  /** What follows a quoted argument: nothing, or a blank. */
  predicate Ends(text: string) { text == "" || Blank(text[0]) }

  /** At the closing quote every pair of backslashes before it has become one. */
  lemma ScanClosing(slashes: nat, text: string, arg: string)
    requires Ends(text)
    ensures Scan(Slashes(2 * slashes) + [QUOTE] + text, true, 0, arg) == Scan(text, false, 0, arg + Slashes(slashes))
  {
    assert Slashes(2 * slashes) + [QUOTE] + text == Slashes(2 * slashes) + ([QUOTE] + text);
    ScanSlashes(2 * slashes, [QUOTE] + text, true, 0, arg);
    assert ([QUOTE] + text)[1..] == text;
  }

  /** A character inside the quotes stands for itself, its backslashes restored. */
  lemma ScanCharacter(c: char, slashes: nat, text: string, arg: string)
    requires c != SLASH
    ensures Scan(Slashes(if c == QUOTE then 2 * slashes + 1 else slashes) + [c] + text, true, 0, arg)
      == Scan(text, true, 0, arg + Slashes(slashes) + [c])
  {
    var n := if c == QUOTE then 2 * slashes + 1 else slashes;
    assert Slashes(n) + [c] + text == Slashes(n) + ([c] + text);
    ScanSlashes(n, [c] + text, true, 0, arg);
    assert ([c] + text)[1..] == text;
  }

  /**
   Backslashes before a quote: each pair is one; an odd one makes the quote literal; otherwise the quote opens or
   closes a quoted part, but two quotes within one are a literal one.
   */
  lemma QuoteAfterSlashes(n: nat, text: string, quoted: bool, arg: string)
    ensures Scan(Slashes(2 * n + 1) + ['"'] + text, quoted, 0, arg) == Scan(text, quoted, 0, arg + Slashes(n) + ['"'])
    ensures Scan(Slashes(2 * n) + ['"', '"'] + text, true, 0, arg) == Scan(text, true, 0, arg + Slashes(n) + ['"'])
    ensures !quoted || text == "" || text[0] != '"' ==>
      Scan(Slashes(2 * n) + ['"'] + text, quoted, 0, arg) == Scan(text, !quoted, 0, arg + Slashes(n))
  {
    assert Slashes(2 * n + 1) + ['"'] + text == Slashes(2 * n + 1) + (['"'] + text);
    ScanSlashes(2 * n + 1, ['"'] + text, quoted, 0, arg);
    assert (['"'] + text)[1..] == text;
    assert Slashes(2 * n) + ['"', '"'] + text == Slashes(2 * n) + (['"', '"'] + text);
    ScanSlashes(2 * n, ['"', '"'] + text, true, 0, arg);
    assert (['"', '"'] + text)[2..] == text;
    assert Slashes(2 * n) + ['"'] + text == Slashes(2 * n) + (['"'] + text);
    ScanSlashes(2 * n, ['"'] + text, quoted, 0, arg);
  }

  /** Before anything else backslashes are literal; a blank or a tab ends an argument, but not within a quoted part. */
  lemma OthersAfterSlashes(n: nat, c: char, text: string, quoted: bool, arg: string)
    requires c != '\\' && c != '"'
    ensures Scan(Slashes(n) + [c] + text, quoted, 0, arg)
      == if !quoted && c in " \t" then [arg + Slashes(n)] + Arguments(text) else Scan(text, quoted, 0, arg + Slashes(n) + [c])
    ensures Scan(Slashes(n), quoted, 0, arg) == [arg + Slashes(n)]
  {
    assert Slashes(n) + [c] + text == Slashes(n) + ([c] + text);
    ScanSlashes(n, [c] + text, quoted, 0, arg);
    assert ([c] + text)[1..] == text;
    assert Slashes(n) + "" == Slashes(n);
    ScanSlashes(n, "", quoted, 0, arg);
  }

  /** The program name: quotes are dropped and only group, and the first blank or tab outside them ends it. */
  lemma ProgramRules(c: char, text: string, quoted: bool, name: string)
    ensures Program([c] + text, quoted, name)
      == if c == '"' then Program(text, !quoted, name)
         else if !quoted && c in " \t" then (name, text) else Program(text, quoted, name + [c])
  {
    assert ([c] + text)[1..] == text;
  }

  /** Scanning the quoted form of `value` yields `value`, with the waiting backslashes in front of it. */
  lemma {:induction false} ScanUndoesEscape(value: string, slashes: nat, text: string, arg: string)
    requires Ends(text)
    ensures Scan(Escape(value, slashes) + text, true, 0, arg) == Scan(text, false, 0, arg + Slashes(slashes) + value)
    decreases |value|
  {
    if value == "" {
      ScanClosing(slashes, text, arg);
      assert arg + Slashes(slashes) + value == arg + Slashes(slashes);
    } else if value[0] == SLASH {
      ScanUndoesEscape(value[1..], slashes + 1, text, arg);
      assert arg + Slashes(slashes + 1) + value[1..] == arg + Slashes(slashes) + value;
    } else {
      var n := if value[0] == QUOTE then 2 * slashes + 1 else slashes;
      var rest := Escape(value[1..], 0);
      assert Slashes(n) + [value[0]] + rest + text == Slashes(n) + [value[0]] + (rest + text);
      ScanCharacter(value[0], slashes, rest + text, arg);
      ScanUndoesEscape(value[1..], 0, text, arg + Slashes(slashes) + [value[0]]);
      assert arg + Slashes(slashes) + [value[0]] + Slashes(0) + value[1..] == arg + Slashes(slashes) + value;
    }
  }

  lemma QuotedIsOneArgument(value: string, text: string)
    requires Ends(text)
    ensures Scan(Quoted(value) + text, false, 0, "") == Scan(text, false, 0, value)
  {
    var rest := Escape(value, 0) + text;
    assert Quoted(value) + text == [QUOTE] + rest && ([QUOTE] + rest)[1..] == rest;
    ScanUndoesEscape(value, 0, text, "");
    assert "" + Slashes(0) == "" && "" + Slashes(0) + value == value;
  }

  lemma ArgumentEnds(value: string, text: string)
    requires Ends(text)
    ensures Scan(text, false, 0, value) == [value] + Arguments(text)
  {
    assert value + Slashes(0) == value;
  }

  lemma {:induction false} ArgumentsUndoQuoting(args: seq<string>)
    ensures Arguments(QuotedAll(args)) == args
  {
    if args != [] {
      var rest := QuotedAll(args[1..]);
      var text := Quoted(args[0]) + rest;
      assert QuotedAll(args) == [' '] + text && ([' '] + text)[1..] == text;
      QuotedIsOneArgument(args[0], rest);
      ArgumentEnds(args[0], rest);
      ArgumentsUndoQuoting(args[1..]);
    }
  }

  /** The program rule keeps backslashes, drops quotes and so never returns one. */
  lemma {:induction false} ProgramHasNoQuote(text: string, quoted: bool, name: string)
    requires QUOTE !in name
    ensures QUOTE !in Program(text, quoted, name).0
  {
    if text != "" {
      if text[0] == QUOTE {
        ProgramHasNoQuote(text[1..], !quoted, name);
      } else if quoted || !Blank(text[0]) {
        ProgramHasNoQuote(text[1..], quoted, name + [text[0]]);
      }
    }
  }

  /** The backslashes a quote-free path ends with, counting `slashes` more in front of it. */
  function Trailing(path: string, slashes: nat): nat {
    if path == "" then slashes
    else if path[0] == SLASH then Trailing(path[1..], slashes + 1)
    else Trailing(path[1..], 0)
  }

  lemma {:induction false} ProgramSlashes(n: nat, text: string, name: string)
    ensures Program(Slashes(n) + text, true, name) == Program(text, true, name + Slashes(n))
  {
    if n == 0 {
      assert Slashes(0) + text == text && name + Slashes(0) == name;
    } else {
      assert (Slashes(n) + text)[1..] == Slashes(n - 1) + text;
      ProgramSlashes(n - 1, text, name + [SLASH]);
      assert name + [SLASH] + Slashes(n - 1) == name + Slashes(n);
    }
  }

  /** The program name of a quote-free path comes back with its trailing backslashes doubled. */
  lemma {:induction false} ProgramOfQuoted(path: string, slashes: nat, text: string, name: string)
    requires QUOTE !in path && Ends(text)
    ensures Program(Escape(path, slashes) + text, true, name)
      == (name + Slashes(slashes) + path + Slashes(Trailing(path, slashes)), if text == "" then "" else text[1..])
    decreases |path|
  {
    if path == "" {
      assert Escape(path, slashes) + text == Slashes(2 * slashes) + ([QUOTE] + text);
      ProgramSlashes(2 * slashes, [QUOTE] + text, name);
      assert ([QUOTE] + text)[1..] == text;
      assert name + Slashes(2 * slashes) == name + Slashes(slashes) + path + Slashes(slashes);
    } else if path[0] == SLASH {
      ProgramOfQuoted(path[1..], slashes + 1, text, name);
      assert name + Slashes(slashes + 1) + path[1..] == name + Slashes(slashes) + path;
    } else {
      var rest := Escape(path[1..], 0) + text;
      assert Escape(path, slashes) + text == Slashes(slashes) + ([path[0]] + rest);
      ProgramSlashes(slashes, [path[0]] + rest, name);
      assert ([path[0]] + rest)[1..] == rest;
      ProgramOfQuoted(path[1..], 0, text, name + Slashes(slashes) + [path[0]]);
      assert name + Slashes(slashes) + [path[0]] + Slashes(0) + path[1..] == name + Slashes(slashes) + path;
    }
  }

  lemma {:induction false} TrailingIsZero(path: string, slashes: nat)
    ensures Trailing(path, slashes) == 0 <==> if path == "" then slashes == 0 else path[|path| - 1] != SLASH
  {
    if path != "" {
      TrailingIsZero(path[1..], if path[0] == SLASH then slashes + 1 else 0);
    }
  }

  /** Whatever the arguments, splitting the command line of a quote-free path gives exactly them back. */
  lemma SplitReturnsArguments(path: string, arguments: seq<string>)
    requires QUOTE !in path
    ensures Split(Quoted(path) + QuotedAll(arguments)) == [path + Slashes(Trailing(path, 0))] + arguments
  {
    var rest := QuotedAll(arguments);
    var text := Quoted(path) + rest;
    assert text == [QUOTE] + (Escape(path, 0) + rest);
    assert text[1..] == Escape(path, 0) + rest;
    ProgramOfQuoted(path, 0, rest, "");
    assert "" + Slashes(0) + path == path;
    ArgumentsUndoQuoting(arguments);
    assert arguments != [] ==> Arguments(rest) == Arguments(rest[1..]);
  }

  /** The whole command line is recovered exactly when the path has no quote and no trailing backslash. */
  lemma SplitUndoesComposeExactlyWhen(path: string, arguments: seq<string>)
    ensures Split(Quoted(path) + QuotedAll(arguments)) == [path] + arguments
      <==> '"' !in path && (path == "" || path[|path| - 1] != '\\')
  {
    TrailingIsZero(path, 0);
    if QUOTE in path {
      var text := Quoted(path) + QuotedAll(arguments);
      ProgramHasNoQuote(text, false, "");
      assert QUOTE !in Split(text)[0] && ([path] + arguments)[0] == path;
    } else {
      SplitReturnsArguments(path, arguments);
      var program := path + Slashes(Trailing(path, 0));
      assert path + Slashes(0) == path && |program| == |path| + Trailing(path, 0);
      assert ([program] + arguments)[0] == program && ([path] + arguments)[0] == path;
    }
  }
}
