/**
 * Command-line options of battstatus. Each argument must start with '-' or
 * '/' and is followed by option letters: 'v' raises the verbosity, 'p'
 * prevents sleep, 'h' or '?' asks for the usage text, anything else is an
 * error. The argument "--help" also asks for the usage text. Parsing stops at
 * the first usage request or error.
 */
module Options {

  datatype OptionError =
    | ExpectedDashOrSlash(arg: string)   // "expected - or / : <arg>"
    | UnknownOption(letter: char)        // "unknown option: <letter>"

  /** The outcome of parsing: settings to run with, the usage text (exit 1), or an error (exit 1). */
  datatype Outcome = Parsed(verbose: nat, preventSleep: bool) | Usage | Failed(error: OptionError)

  predicate Known(c: char) {
    c == 'p' || c == 'v'
  }

  predicate AsksUsage(c: char) {
    c == 'h' || c == '?'
  }

  /** The number of times `c` occurs in `s`. */
  function Count(c: char, s: string): nat {
    if s == [] then 0 else (if s[0] == c then 1 else 0) + Count(c, s[1..])
  }

  /** An argument that the parser accepts and that sets only -p and -v. */
  predicate ValidArg(a: string) {
    a != "--help" && |a| > 0 && (a[0] == '-' || a[0] == '/')
    && forall i | 1 <= i < |a| :: Known(a[i])
  }

  /**
   * The letters of one argument, left to right, from the settings so far.
   * The result is Parsed exactly when every letter is 'p' or 'v', and then
   * counts the 'v's and notes any 'p'; otherwise it is the outcome of the
   * first letter that is neither.
   */
  function ApplyLetters(verbose: nat, preventSleep: bool, letters: string): (r: Outcome)
    ensures r.Parsed? <==> forall i | 0 <= i < |letters| :: Known(letters[i])
    ensures r.Parsed? ==> r.verbose == verbose + Count('v', letters)
    ensures r.Parsed? ==> (r.preventSleep <==> preventSleep || 'p' in letters)
    ensures !r.Parsed? ==>
      exists i | 0 <= i < |letters| ::
        (forall j | 0 <= j < i :: Known(letters[j])) && !Known(letters[i])
        && r == (if AsksUsage(letters[i]) then Usage else Failed(UnknownOption(letters[i])))
    decreases |letters|
  {
    if letters == [] then Parsed(verbose, preventSleep)
    else
      var c := letters[0];
      if AsksUsage(c) then Usage
      else if c == 'p' then ApplyLetters(verbose, true, letters[1..])
      else if c == 'v' then ApplyLetters(verbose + 1, preventSleep, letters[1..])
      else Failed(UnknownOption(c))
  }

  /** One argument: "--help", then the leading '-' or '/', then its letters. */
  function ApplyArg(verbose: nat, preventSleep: bool, arg: string): (r: Outcome)
    ensures r.Parsed? <==> ValidArg(arg)
    ensures arg == "--help" ==> r == Usage
    ensures arg != "--help" && (arg == [] || (arg[0] != '-' && arg[0] != '/')) ==>
      r == Failed(ExpectedDashOrSlash(arg))
    ensures r.Parsed? ==>
      r.verbose == verbose + Count('v', arg[1..]) && (r.preventSleep <==> preventSleep || 'p' in arg[1..])
  {
    if arg == "--help" then Usage
    else if arg == [] || (arg[0] != '-' && arg[0] != '/') then Failed(ExpectedDashOrSlash(arg))
    else ApplyLetters(verbose, preventSleep, arg[1..])
  }

  /** Carries settings on to the remaining arguments, or keeps a final outcome. */
  function Continue(o: Outcome, rest: seq<string>): Outcome
    decreases |rest|, 1
  {
    if o.Parsed? then ApplyArgs(o.verbose, o.preventSleep, rest) else o
  }

  function ApplyArgs(verbose: nat, preventSleep: bool, args: seq<string>): Outcome
    decreases |args|, 0
  {
    if args == [] then Parsed(verbose, preventSleep)
    else Continue(ApplyArg(verbose, preventSleep, args[0]), args[1..])
  }

  /** The outcome of the command line (program name excluded), from verbosity 0 and no -p. */
  function ParseArgs(args: seq<string>): Outcome {
    ApplyArgs(0, false, args)
  }

  /** The total number of 'v' letters over all arguments. */
  function VerboseCount(args: seq<string>): nat {
    if args == [] then 0 else (if |args[0]| > 0 then Count('v', args[0][1..]) else 0) + VerboseCount(args[1..])
  }

  /** Some argument holds a 'p' letter. */
  predicate AnyPrevent(args: seq<string>) {
    exists k | 0 <= k < |args| :: |args[k]| > 0 && 'p' in args[k][1..]
  }

  /**
   * Parsing succeeds exactly when every argument is valid; the verbosity is
   * then the number of 'v' letters and sleep is prevented exactly when some
   * argument holds a 'p'.
   */
  lemma {:induction false} ApplyArgsParsed(verbose: nat, preventSleep: bool, args: seq<string>)
    ensures ApplyArgs(verbose, preventSleep, args).Parsed? <==> forall k | 0 <= k < |args| :: ValidArg(args[k])
    ensures ApplyArgs(verbose, preventSleep, args).Parsed? ==>
      ApplyArgs(verbose, preventSleep, args) ==
        Parsed(verbose + VerboseCount(args), preventSleep || AnyPrevent(args))
    decreases |args|
  {
    if args != [] {
      var first := ApplyArg(verbose, preventSleep, args[0]);
      var rest := args[1..];
      assert forall k | 1 <= k < |args| :: args[k] == rest[k - 1];
      if first.Parsed? {
        ApplyArgsParsed(first.verbose, first.preventSleep, rest);
        if AnyPrevent(rest) {
          var k :| 0 <= k < |rest| && |rest[k]| > 0 && 'p' in rest[k][1..];
          assert args[k + 1] == rest[k];
        }
      }
    }
  }

  /** When parsing stops early, the outcome is that of the first argument that is not valid. */
  lemma {:induction false} ApplyArgsStops(verbose: nat, preventSleep: bool, args: seq<string>)
    requires !ApplyArgs(verbose, preventSleep, args).Parsed?
    ensures exists k | 0 <= k < |args| ::
        (forall j | 0 <= j < k :: ValidArg(args[j])) && !ValidArg(args[k])
        && ApplyArgs(verbose, preventSleep, args) == ApplyArg(0, false, args[k])
    decreases |args|
  {
    var first := ApplyArg(verbose, preventSleep, args[0]);
    var rest := args[1..];
    if first.Parsed? {
      ApplyArgsStops(first.verbose, first.preventSleep, rest);
      var k :| 0 <= k < |rest| && (forall j | 0 <= j < k :: ValidArg(rest[j])) && !ValidArg(rest[k])
        && ApplyArgs(first.verbose, first.preventSleep, rest) == ApplyArg(0, false, rest[k]);
      assert args[k + 1] == rest[k];
      assert forall j | 0 <= j < k + 1 :: ValidArg(args[j]) by {
        assert forall j | 1 <= j < k + 1 :: args[j] == rest[j - 1];
      }
    } else {
      assert ApplyArgs(verbose, preventSleep, args) == ApplyArg(0, false, args[0]) by {
        if args[0] != "--help" && |args[0]| > 0 && (args[0][0] == '-' || args[0][0] == '/') {
          LettersIgnoreSettings(verbose, preventSleep, args[0][1..]);
        }
      }
    }
  }

  /** Whether the letters stop parsing, and how, does not depend on the settings so far. */
  lemma {:induction false} LettersIgnoreSettings(verbose: nat, preventSleep: bool, letters: string)
    requires !ApplyLetters(verbose, preventSleep, letters).Parsed?
    ensures ApplyLetters(verbose, preventSleep, letters) == ApplyLetters(0, false, letters)
    decreases |letters|
  {
    var c := letters[0];
    if !AsksUsage(c) && Known(c) {
      LettersIgnoreSettings(if c == 'v' then verbose + 1 else verbose, c == 'p' || preventSleep, letters[1..]);
      LettersIgnoreSettings(if c == 'v' then 1 else 0, c == 'p', letters[1..]);
    }
  }

  /** The letters of `letters`, one option per argument. */
  function Separate(letters: string): (args: seq<string>)
    ensures |args| == |letters|
    ensures forall k | 0 <= k < |args| :: args[k] == ['-', letters[k]]
  {
    if letters == [] then [] else [['-', letters[0]]] + Separate(letters[1..])
  }

  /** Options combined into one argument are the same as separate options. */
  lemma {:induction false} CombinedIsSeparate(verbose: nat, preventSleep: bool, letters: string, rest: seq<string>)
    requires letters != "-help"
    ensures ApplyArgs(verbose, preventSleep, ["-" + letters] + rest)
            == ApplyArgs(verbose, preventSleep, Separate(letters) + rest)
    decreases |letters|
  {
    CombinedUnfolds(verbose, preventSleep, letters, rest);
    if letters == [] {
      assert Separate(letters) + rest == rest;
    } else {
      var c := letters[0];
      SeparateUnfolds(verbose, preventSleep, letters, rest);
      if !AsksUsage(c) && Known(c) {
        var v := if c == 'v' then verbose + 1 else verbose;
        var p := c == 'p' || preventSleep;
        assert ApplyLetters(verbose, preventSleep, [c]) == Parsed(v, p);
        assert ApplyLetters(verbose, preventSleep, letters) == ApplyLetters(v, p, letters[1..]);
        if letters[1..] == "-help" {
          // "-<c>-help" stops at the '-' letter, and so does the separate "--".
          DashStops(v, p, rest);
        } else {
          CombinedIsSeparate(v, p, letters[1..], rest);
          CombinedUnfolds(v, p, letters[1..], rest);
        }
      }
    }
  }

  lemma CombinedUnfolds(verbose: nat, preventSleep: bool, letters: string, rest: seq<string>)
    requires letters != "-help"
    ensures ApplyArgs(verbose, preventSleep, ["-" + letters] + rest)
            == Continue(ApplyLetters(verbose, preventSleep, letters), rest)
  {
    var combined := ["-" + letters] + rest;
    assert combined[0][1..] == letters;
    assert combined[1..] == rest;
  }

  lemma SeparateUnfolds(verbose: nat, preventSleep: bool, letters: string, rest: seq<string>)
    requires letters != []
    ensures ApplyArgs(verbose, preventSleep, Separate(letters) + rest)
            == Continue(ApplyLetters(verbose, preventSleep, [letters[0]]), Separate(letters[1..]) + rest)
  {
    var separate := Separate(letters) + rest;
    assert separate[0] == ['-', letters[0]];
    assert separate[0][1..] == [letters[0]];
    assert separate[1..] == Separate(letters[1..]) + rest;
  }

  /** Both forms of "-help" after a first letter stop at the '-'. */
  lemma DashStops(verbose: nat, preventSleep: bool, rest: seq<string>)
    ensures ApplyLetters(verbose, preventSleep, "-help") == Failed(UnknownOption('-'))
    ensures ApplyArgs(verbose, preventSleep, Separate("-help") + rest) == Failed(UnknownOption('-'))
  {
    var args := Separate("-help") + rest;
    assert args[0] == "--";
    assert ApplyArg(verbose, preventSleep, "--") == Failed(UnknownOption('-'));
  }

  /** The usage text's own example: -pvv. */
  lemma PvvExample()
    ensures ParseArgs(["-pvv"]) == Parsed(2, true)
    ensures ParseArgs(["-p", "-v", "-v"]) == Parsed(2, true)
  {
    CombinedIsSeparate(0, false, "pvv", []);
    assert Separate("pvv") == ["-p", "-v", "-v"];
  }

  /** One letter of the inner loop: the letter at `j`, then the letters after it. */
  lemma LetterStep(verbose: nat, preventSleep: bool, arg: string, j: nat)
    requires j < |arg|
    ensures ApplyLetters(verbose, preventSleep, arg[j..]) ==
      if AsksUsage(arg[j]) then Usage
      else if arg[j] == 'p' then ApplyLetters(verbose, true, arg[j + 1..])
      else if arg[j] == 'v' then ApplyLetters(verbose + 1, preventSleep, arg[j + 1..])
      else Failed(UnknownOption(arg[j]))
  {
    assert arg[j..][0] == arg[j] && arg[j..][1..] == arg[j + 1..];
  }

  /** One argument of the outer loop: the argument at `i`, then the arguments after it. */
  lemma ArgStep(verbose: nat, preventSleep: bool, args: seq<string>, i: nat)
    requires i < |args|
    ensures ApplyArgs(verbose, preventSleep, args[i..]) ==
      Continue(ApplyArg(verbose, preventSleep, args[i]), args[i + 1..])
  {
    assert args[i..][0] == args[i] && args[i..][1..] == args[i + 1..];
  }

  /** The loop of `main` over argv[1..]: returns at the first usage request or error. */
  method ParseOptions(args: seq<string>) returns (r: Outcome)
    ensures r == ParseArgs(args)
  {
    var verbose: nat := 0;
    var preventSleep := false;
    var i := 0;
    while i < |args|
      invariant 0 <= i <= |args|
      invariant ParseArgs(args) == ApplyArgs(verbose, preventSleep, args[i..])
    {
      var p := args[i];
      ArgStep(verbose, preventSleep, args, i);
      if p == "--help" {
        return Usage;
      }
      if |p| == 0 || (p[0] != '-' && p[0] != '/') {
        return Failed(ExpectedDashOrSlash(p));
      }
      var j := 1;
      while j < |p|
        invariant 1 <= j <= |p|
        invariant ParseArgs(args) == Continue(ApplyLetters(verbose, preventSleep, p[j..]), args[i + 1..])
      {
        LetterStep(verbose, preventSleep, p, j);
        var c := p[j];
        if c == 'h' || c == '?' {
          return Usage;
        } else if c == 'p' {
          preventSleep := true;
        } else if c == 'v' {
          verbose := verbose + 1;
        } else {
          return Failed(UnknownOption(c));
        }
        j := j + 1;
      }
      i := i + 1;
    }
    return Parsed(verbose, preventSleep);
  }
}
