/** The command line every BackupHandler renders from a request: option
    fragments for type, keep and (in two handlers) mode, in that order and
    with nothing between them, then one space and the target; the shell
    handlers then wrap it in one pair of double quotes behind `sudo` and the
    executable. Nothing in the request is escaped. */
module Command {
  import opened Optional
  import opened GoStrings

  /** The executable named by both listeners and by the server. */
  const Executable := "/usr/local/bin/raspiBackup.sh"
  /** The shell the quoted handlers run the line with (`bash -c`). */
  const Shell := "/bin/bash"

  /** `flag + value` when the field is present, nothing otherwise. */
  function Fragment(flag: string, value: Option<string>): string
  {
    match value
    case None => ""
    case Some(v) => flag + v
  }

  /** The keep field as text, `strconv.Itoa(*parm.Keep)`. */
  function KeepText(keep: Option<int>): Option<string>
  {
    match keep
    case None => None
    case Some(k) => Some(Itoa(k))
  }

  /** The option fragments in the fixed order type, keep, mode, glued
      without a separator. */
  function Options(typ: Option<string>, keep: Option<int>, mode: Option<string>): string
  {
    Fragment("-t ", typ) + Fragment("-k ", KeepText(keep)) + Fragment("-P ", mode)
  }

  /** The argument string the handlers build. The handlers without a mode
      field pass `None` for `mode`. */
  function Args(typ: Option<string>, keep: Option<int>, mode: Option<string>, target: string): string
  {
    Options(typ, keep, mode) + " " + target
  }

  /** The handlers' step-by-step rendering of the argument string: each
      present field appends its flag and value, then a space and the
      target follow. Handlers without a mode field pass `None`. */
  method RenderArgs(typ: Option<string>, keep: Option<int>, mode: Option<string>, target: string) returns (args: string)
    ensures args == Args(typ, keep, mode, target)
  {
    args := "";
    if typ.Some? {
      args := "-t " + typ.value;
    }
    ghost var lead := args;
    if keep.Some? {
      args := args + "-k " + Itoa(keep.value);
      assert args == lead + ("-k " + Itoa(keep.value));
    }
    ghost var options := args;
    if mode.Some? {
      args := args + "-P " + mode.value;
      assert args == options + ("-P " + mode.value);
    }
    assert args == Options(typ, keep, mode);
    args := args + " " + target;
  }

  /** The target comes last, after exactly one space. */
  lemma ArgsEndWithTarget(typ: Option<string>, keep: Option<int>, mode: Option<string>, target: string)
    ensures var args := Args(typ, keep, mode, target);
      |args| > |target| && args[|args| - |target| - 1..] == " " + target
  {
    var opts := Options(typ, keep, mode);
    assert Args(typ, keep, mode, target) == opts + (" " + target);
  }

  /** With a type, the arguments start with the type fragment. */
  lemma ArgsLeadType(typ: string, keep: Option<int>, mode: Option<string>, target: string)
    ensures var args := Args(Some(typ), keep, mode, target);
      |args| > 3 + |typ| && args[..3 + |typ|] == "-t " + typ
  {
    var rest := Fragment("-k ", KeepText(keep)) + Fragment("-P ", mode);
    assert Options(Some(typ), keep, mode) == "-t " + typ + rest;
    OptionsLead("-t " + typ, rest, target);
  }

  /** Without a type but with keep, the arguments start with the keep
      fragment. */
  lemma ArgsLeadKeep(keep: int, mode: Option<string>, target: string)
    ensures var args := Args(None, Some(keep), mode, target);
      |args| > 3 + |Itoa(keep)| && args[..3 + |Itoa(keep)|] == "-k " + Itoa(keep)
  {
    var k, m := Itoa(keep), Fragment("-P ", mode);
    assert Options(None, Some(keep), mode) == "-k " + k + m;
    OptionsLead("-k " + k, m, target);
  }

  /** With mode as the only option, the arguments start with the mode
      fragment; with no option at all they are the space and the target. */
  lemma ArgsLeadMode(mode: Option<string>, target: string)
    ensures mode.Some? ==> Args(None, None, mode, target) == "-P " + mode.value + " " + target
    ensures mode.None? ==> Args(None, None, mode, target) == " " + target
  {
  }

  lemma PrefixOfConcat(a: string, b: string)
    ensures (a + b)[..|a|] == a
  {
  }

  lemma OptionsLead(lead: string, rest: string, target: string)
    ensures |lead + rest + " " + target| > |lead| && (lead + rest + " " + target)[..|lead|] == lead
  {
    assert lead + rest + " " + target == lead + (rest + " " + target);
    PrefixOfConcat(lead, rest + " " + target);
  }

  /** The fragments are glued without a separator. */
  lemma ArgsExample()
    ensures Args(Some("tar"), Some(3), Some("x"), "/backup") == "-t tar-k 3-P x /backup"
  {
    assert Itoa(3) == "3";
    assert Options(Some("tar"), Some(3), Some("x")) == "-t tar-k 3-P x";
  }

  /** With the options fixed, the target is recovered from the arguments. */
  lemma TargetDetermined(typ: Option<string>, keep: Option<int>, mode: Option<string>, t1: string, t2: string)
    requires Args(typ, keep, mode, t1) == Args(typ, keep, mode, t2)
    ensures t1 == t2
  {
    var a1, a2 := Args(typ, keep, mode, t1), Args(typ, keep, mode, t2);
    var opts := Options(typ, keep, mode);
    assert a1 == opts + " " + t1 && a2 == opts + " " + t2;
    assert t1 == a1[|opts| + 1..];
  }

  /** Because nothing separates the fragments, two different requests can
      render the same arguments: a type of "tar-k 3" reads like type "tar"
      with keep 3. */
  lemma OptionsAmbiguous()
    ensures Args(Some("tar-k 3"), None, None, "/backup") == Args(Some("tar"), Some(3), None, "/backup")
  {
    assert Itoa(3) == "3";
  }

  /** The argument string wrapped in one pair of double quotes. */
  function Quote(s: string): string
  {
    "\"" + s + "\""
  }

  /** The line the shell handlers give to `bash -c`. */
  function SudoCommand(executable: string, args: string): string
  {
    "sudo " + executable + " " + Quote(args)
  }

  /** The line is a prefix fixed by the executable alone (never by the
      request), then the arguments, then one closing quote. */
  lemma SudoCommandLayout(executable: string, args: string)
    ensures var line, prefix := SudoCommand(executable, args), "sudo " + executable + " \"";
      && |line| == |prefix| + |args| + 1 && line[..|prefix|] == prefix
      && line[|prefix|..|line| - 1] == args && line[|line| - 1] == '"'
  {
    var prefix := "sudo " + executable + " \"";
    var line := SudoCommand(executable, args);
    assert line == prefix + args + "\"";
    PrefixOfConcat(prefix, args + "\"");
  }

  /** Number of double quotes a present option text contributes. */
  function QuotesIn(value: Option<string>): nat
  {
    match value
    case None => 0
    case Some(v) => Count(v, '"')
  }

  lemma {:induction false} FragmentQuotes(flag: string, value: Option<string>)
    requires '"' !in flag
    ensures Count(Fragment(flag, value), '"') == QuotesIn(value)
  {
    if value.Some? {
      CountAppend(flag, value.value, '"');
    }
  }

  /** The double quotes in the arguments are exactly those of the type, the
      mode and the target: the keep number adds none and nothing is escaped. */
  lemma ArgsQuotes(typ: Option<string>, keep: Option<int>, mode: Option<string>, target: string)
    ensures Count(Args(typ, keep, mode, target), '"') == QuotesIn(typ) + QuotesIn(mode) + Count(target, '"')
  {
    var t, k, m := Fragment("-t ", typ), Fragment("-k ", KeepText(keep)), Fragment("-P ", mode);
    FragmentQuotes("-t ", typ);
    FragmentQuotes("-k ", KeepText(keep));
    FragmentQuotes("-P ", mode);
    if keep.Some? {
      ItoaChars(keep.value);
      assert '"' !in Itoa(keep.value);
    }
    assert Args(typ, keep, mode, target) == t + k + m + " " + target by {
      assert Options(typ, keep, mode) == t + k + m;
    }
    CountAppend(t, k, '"');
    CountAppend(t + k, m, '"');
    CountAppend(t + k + m, " ", '"');
    CountAppend(t + k + m + " ", target, '"');
  }

  /** The shell line holds the two delimiting quotes plus every quote of
      the executable and of the arguments. */
  lemma SudoCommandQuotes(executable: string, args: string)
    ensures Count(SudoCommand(executable, args), '"') == 2 + Count(executable, '"') + Count(args, '"')
  {
    var pre := "sudo " + executable + " ";
    assert SudoCommand(executable, args) == pre + "\"" + args + "\"";
    CountAppend("sudo ", executable, '"');
    CountAppend("sudo " + executable, " ", '"');
    CountAppend(pre, "\"", '"');
    CountAppend(pre + "\"", args, '"');
    CountAppend(pre + "\"" + args, "\"", '"');
  }

  /** When neither the type, the mode nor the target holds a double quote,
      the only quotes on the shell line are the two around the arguments. */
  lemma QuotedRegionIntact(typ: Option<string>, keep: Option<int>, mode: Option<string>, target: string)
    requires QuotesIn(typ) == 0 && QuotesIn(mode) == 0 && '"' !in target
    ensures Count(SudoCommand(Executable, Args(typ, keep, mode, target)), '"') == 2
  {
    var args := Args(typ, keep, mode, target);
    ArgsQuotes(typ, keep, mode, target);
    SudoCommandQuotes(Executable, args);
    ExecutableUnquoted();
  }

  lemma ExecutableUnquoted()
    ensures Count(Executable, '"') == 0
  {
    assert '"' !in Executable;
  }

  /** A double quote in the target is copied onto the shell line unescaped:
      the line then holds more than the two delimiting quotes, and the shell
      ends the quoted word inside the target. */
  lemma QuoteInTargetEscapes(typ: Option<string>, keep: Option<int>, mode: Option<string>, target: string)
    requires '"' in target
    ensures Count(SudoCommand(Executable, Args(typ, keep, mode, target)), '"') > 2
  {
    ArgsQuotes(typ, keep, mode, target);
    SudoCommandQuotes(Executable, Args(typ, keep, mode, target));
  }

  /** Counting quotes is not enough for one intact shell word: a target
      ending in a backslash puts `\"` at the end of the line, so the
      closing quote is escaped and the word is left unterminated. */
  lemma TrailingBackslashEscapesQuote(typ: Option<string>, keep: Option<int>, mode: Option<string>, target: string)
    requires |target| > 0 && target[|target| - 1] == '\\'
    ensures var line := SudoCommand(Executable, Args(typ, keep, mode, target));
      |line| >= 2 && line[|line| - 2..] == "\\\""
  {
    var args := Args(typ, keep, mode, target);
    ArgsEndWithTarget(typ, keep, mode, target);
    assert args[|args| - 1] == (" " + target)[|target|];
    LastQuoteEscaped(Executable, args);
  }

  /** For any executable, arguments ending in a backslash escape the
      closing quote. */
  lemma LastQuoteEscaped(executable: string, args: string)
    requires |args| > 0 && args[|args| - 1] == '\\'
    ensures var line := SudoCommand(executable, args);
      |line| >= 2 && line[|line| - 2..] == "\\\""
  {
    var line := SudoCommand(executable, args);
    assert line == ("sudo " + executable + " \"" + args) + "\"";
  }
}
