/** The command model: operations, commands, and the batch parser that
    turns `GET a; SET b 1` into a list of commands (internal/cache/commands.go). */
module CacheCommands {
  import opened GoStrings

  type Operation = string

  const OperationSet: Operation := "SET"
  const OperationGet: Operation := "GET"
  const OperationDelete: Operation := "DELETE"
  const OperationExpires: Operation := "EXPIRES"

  const ValidOperations: seq<Operation> := [OperationGet, OperationSet, OperationDelete, OperationExpires]

  /** An operation and its positional arguments. The datatype constructor
      `Command(operation, args)` is the source's `NewCommand`. */
  datatype Command = Command(operation: Operation, args: seq<string>)

  /** The two errors the parser can return. */
  datatype ParseError = EmptyCommand | InvalidOperation
  {
    /** The text the source's `errors.New` gives each error. */
    function Message(): (m: string)
      ensures m == "empty command" || m == "invalid operation"
      ensures this == EmptyCommand <==> m[0] == 'e'
    {
      match this
      case EmptyCommand => "empty command"
      case InvalidOperation => "invalid operation"
    }
  }

  datatype Result<T, E> = Success(value: T) | Failure(error: E)

  /** What one `;`-separated fragment contributes to the batch. */
  datatype FragmentOutcome = Blank | Parsed(cmd: Command) | Rejected(error: ParseError)

  /** A fragment's outcome as a batch result of its own. */
  function Contribution(outcome: FragmentOutcome): Result<seq<Command>, ParseError> {
    match outcome
    case Blank => Success([])
    case Parsed(c) => Success([c])
    case Rejected(e) => Failure(e)
  }

  // ---------------------------------------------------------------- specification

  /** One fragment: trimmed, and skipped when nothing is left. A fragment is
      blank exactly when it is all white space; otherwise it is a command with
      a valid operation whose arguments are the single-space tokens after the
      first, or it is rejected as "invalid operation". */
  function ParseFragment(fragment: string): (o: FragmentOutcome)
    ensures o.Blank? <==> AllSpace(fragment)
    ensures o.Parsed? || o.Blank? || o == Rejected(InvalidOperation)
    ensures o.Parsed? ==> o.cmd.operation in ValidOperations && o.cmd.args == Split(TrimSpace(fragment), ' ')[1..]
  {
    var command := TrimSpace(fragment);
    if command == "" then Blank else ParseCommandText(command)
  }

  /** A trimmed, non-blank fragment: split on single spaces; the upper-cased
      first token must be a valid operation and the remaining tokens are the
      arguments, verbatim. Splitting always yields a token, so the "empty
      command" branch is never taken. */
  function ParseCommandText(command: string): (o: FragmentOutcome)
    ensures o.Parsed? || o == Rejected(InvalidOperation)
    ensures o.Parsed? ==> o.cmd.operation in ValidOperations
  {
    var args := Split(command, ' ');
    if |args| == 0 then Rejected(EmptyCommand)
    else
      var op := ToUpper(args[0]);
      if op !in ValidOperations then Rejected(InvalidOperation)
      else Parsed(Command(op, args[1..]))
  }

  /** The fragments in order; the first rejected fragment aborts the whole batch. */
  function ParseFragments(fragments: seq<string>): (r: Result<seq<Command>, ParseError>)
    ensures r.Success? ==> |r.value| <= |fragments|
    ensures r.Success? ==> forall k :: 0 <= k < |r.value| ==> r.value[k].operation in ValidOperations
    ensures r.Failure? ==> r.error == InvalidOperation
  {
    if fragments == [] then Success([])
    else
      match ParseFragment(fragments[0])
      case Blank => ParseFragments(fragments[1..])
      case Rejected(e) => Failure(e)
      case Parsed(c) =>
        var rest := ParseFragments(fragments[1..]);
        if rest.Failure? then rest else Success([c] + rest.value)
  }

  /** What `ParseCommandsFromString` returns for a whole batch. */
  function Parse(commandsString: string): Result<seq<Command>, ParseError> {
    ParseFragments(Split(commandsString, ';'))
  }

  // ---------------------------------------------------------------- the parser

  /** `ParseCommandsFromString`: walks the fragments, appending one command
      per non-blank fragment, and returns at the first rejected fragment. */
  method ParseCommandsFromString(commandsString: string) returns (r: Result<seq<Command>, ParseError>)
    ensures r == Parse(commandsString)
  {
    var commandsStringSplit := Split(commandsString, ';');
    var commands: seq<Command> := [];
    assert commandsStringSplit[..|commandsStringSplit|] == commandsStringSplit;
    for i := 0 to |commandsStringSplit|
      invariant ParseFragments(commandsStringSplit[..i]) == Success(commands)
    {
      var command := TrimSpace(commandsStringSplit[i]);
      if command == "" {
        assert ParseFragment(commandsStringSplit[i]) == Blank;
        ExtendPrefix(commandsStringSplit, i);
        assert commands + [] == commands;
        continue;
      }
      var args := Split(command, ' ');
      if |args| == 0 {
        r := Failure(EmptyCommand);
        return;
      }
      var cmd := ToUpper(args[0]);
      if cmd !in ValidOperations {
        r := Failure(InvalidOperation);
        assert ParseFragment(commandsStringSplit[i]) == Rejected(InvalidOperation);
        AbortAt(commandsStringSplit, i);
        return;
      }
      assert ParseFragment(commandsStringSplit[i]) == Parsed(Command(cmd, args[1..]));
      ExtendPrefix(commandsStringSplit, i);
      commands := commands + [Command(cmd, args[1..])];
    }
    r := Success(commands);
  }

  // ---------------------------------------------------------------- composition

  /** Sequencing two batch results: the first failure wins, otherwise the
      command lists are concatenated. */
  function Then(first: Result<seq<Command>, ParseError>, second: Result<seq<Command>, ParseError>): Result<seq<Command>, ParseError> {
    if first.Failure? then first
    else if second.Failure? then second
    else Success(first.value + second.value)
  }

  /** `Then` is associative. */
  lemma ThenAssociative(x: Result<seq<Command>, ParseError>, y: Result<seq<Command>, ParseError>, z: Result<seq<Command>, ParseError>)
    ensures Then(Then(x, y), z) == Then(x, Then(y, z))
  {
    if x.Success? && y.Success? && z.Success? {
      assert (x.value + y.value) + z.value == x.value + (y.value + z.value);
    }
  }

  /** The first fragment, then the rest. */
  lemma ParseFragmentsCons(fragment: string, rest: seq<string>)
    ensures ParseFragments([fragment] + rest) == Then(Contribution(ParseFragment(fragment)), ParseFragments(rest))
  {
    assert ([fragment] + rest)[0] == fragment;
    assert ([fragment] + rest)[1..] == rest;
    var r := ParseFragments(rest);
    if r.Success? {
      assert [] + r.value == r.value;
    }
  }

  /** Parsing a list of fragments is parsing its two halves in sequence. */
  lemma {:induction false} ParseFragmentsAppend(a: seq<string>, b: seq<string>)
    ensures ParseFragments(a + b) == Then(ParseFragments(a), ParseFragments(b))
    decreases |a|
  {
    if a == [] {
      assert a + b == b;
      var r := ParseFragments(b);
      if r.Success? {
        assert [] + r.value == r.value;
      }
    } else {
      var fragment, rest := a[0], a[1..];
      assert a == [fragment] + rest;
      assert a + b == [fragment] + (rest + b);
      ParseFragmentsAppend(rest, b);
      ParseFragmentsCons(fragment, rest + b);
      ParseFragmentsCons(fragment, rest);
      ThenAssociative(Contribution(ParseFragment(fragment)), ParseFragments(rest), ParseFragments(b));
    }
  }

  /** A fragment rejected at position `i` makes the whole list fail with its error. */
  lemma AbortAt(fragments: seq<string>, i: nat)
    requires i < |fragments|
    requires ParseFragments(fragments[..i]).Success?
    requires ParseFragment(fragments[i]).Rejected?
    ensures ParseFragments(fragments) == Failure(ParseFragment(fragments[i]).error)
  {
    var before, after := fragments[..i], fragments[i..];
    assert fragments == before + after;
    ParseFragmentsAppend(before, after);
    assert after[0] == fragments[i];
  }

  /** Extending a parsed prefix by one fragment. */
  lemma ExtendPrefix(fragments: seq<string>, i: nat)
    requires i < |fragments|
    ensures ParseFragments(fragments[..i + 1]) ==
      Then(ParseFragments(fragments[..i]), Contribution(ParseFragment(fragments[i])))
  {
    assert fragments[..i + 1] == fragments[..i] + [fragments[i]];
    ParseFragmentsAppend(fragments[..i], [fragments[i]]);
    SingleFragment(fragments[i]);
  }

  /** A single fragment on its own. */
  lemma SingleFragment(fragment: string)
    ensures ParseFragments([fragment]) == Contribution(ParseFragment(fragment))
  {
    assert [fragment][1..] == [];
    match ParseFragment(fragment)
    case Blank =>
    case Rejected(e) =>
    case Parsed(c) =>
      assert [c] + [] == [c];
  }

  // ---------------------------------------------------------------- reference definition

  /** The trimmed text of the fragments that are not blank, in input order. */
  function NonBlank(fragments: seq<string>): (kept: seq<string>)
    ensures |kept| <= |fragments|
    ensures forall k :: 0 <= k < |kept| ==> kept[k] != ""
  {
    if fragments == [] then []
    else
      var text := TrimSpace(fragments[0]);
      (if text == "" then [] else [text]) + NonBlank(fragments[1..])
  }

  predicate HasValidOperation(text: string) {
    ToUpper(Split(text, ' ')[0]) in ValidOperations
  }

  /** The command a trimmed fragment stands for: the upper-cased first token
      and the other tokens verbatim. */
  function CommandOf(text: string): Command {
    Command(ToUpper(Split(text, ' ')[0]), Split(text, ' ')[1..])
  }

  function CommandsOf(texts: seq<string>): (cs: seq<Command>)
    ensures |cs| == |texts|
    ensures forall k :: 0 <= k < |texts| ==> cs[k] == CommandOf(texts[k])
  {
    if texts == [] then [] else [CommandOf(texts[0])] + CommandsOf(texts[1..])
  }

  predicate AllValid(texts: seq<string>) {
    forall k :: 0 <= k < |texts| ==> HasValidOperation(texts[k])
  }

  /** The batch's meaning stated without the loop: if every non-blank
      fragment names a valid operation, one command per non-blank fragment in
      order; otherwise the "invalid operation" error and no commands. */
  function Expected(fragments: seq<string>): Result<seq<Command>, ParseError> {
    var kept := NonBlank(fragments);
    if AllValid(kept) then Success(CommandsOf(kept)) else Failure(InvalidOperation)
  }

  /** One fragment in the terms of the reference definition. */
  lemma FragmentMeaning(fragment: string)
    ensures var text := TrimSpace(fragment);
      ParseFragment(fragment) ==
        if text == "" then Blank
        else if HasValidOperation(text) then Parsed(CommandOf(text))
        else Rejected(InvalidOperation)
  {
    var text := TrimSpace(fragment);
    if text != "" {
      assert ParseFragment(fragment) == ParseCommandText(text);
    }
  }

  lemma AllValidCons(text: string, texts: seq<string>)
    ensures AllValid([text] + texts) <==> HasValidOperation(text) && AllValid(texts)
  {
    var all := [text] + texts;
    assert all[0] == text;
    assert forall k :: 0 <= k < |texts| ==> all[k + 1] == texts[k];
  }

  lemma CommandsOfCons(text: string, texts: seq<string>)
    ensures CommandsOf([text] + texts) == [CommandOf(text)] + CommandsOf(texts)
  {
    assert ([text] + texts)[1..] == texts;
  }

  /** The reference definition, one fragment at a time. */
  lemma ExpectedCons(fragment: string, rest: seq<string>)
    ensures Expected([fragment] + rest) == Then(Contribution(ParseFragment(fragment)), Expected(rest))
  {
    FragmentMeaning(fragment);
    NonBlankCons(fragment, rest);
    var text, tail := TrimSpace(fragment), NonBlank(rest);
    var kept := NonBlank([fragment] + rest);
    if text == "" {
      assert kept == tail;
      var e := Expected(rest);
      if e.Success? {
        assert [] + e.value == e.value;
      }
    } else if HasValidOperation(text) {
      assert kept == [text] + tail;
      AllValidCons(text, tail);
      CommandsOfCons(text, tail);
    } else {
      assert kept == [text] + tail;
      AllValidCons(text, tail);
    }
  }

  /** The fragment-by-fragment parse agrees with the reference definition. */
  lemma {:induction false} ParseFragmentsIsExpected(fragments: seq<string>)
    ensures ParseFragments(fragments) == Expected(fragments)
  {
    if fragments != [] {
      var fragment, rest := fragments[0], fragments[1..];
      assert fragments == [fragment] + rest;
      ParseFragmentsIsExpected(rest);
      ParseFragmentsAppend([fragment], rest);
      SingleFragment(fragment);
      ExpectedCons(fragment, rest);
    }
  }

  // ---------------------------------------------------------------- properties of the parser

  /** The reference definition fails exactly when some kept text has an
      invalid operation, and then with "invalid operation". */
  lemma ExpectedFailsIff(fragments: seq<string>)
    ensures var kept := NonBlank(fragments);
      Expected(fragments).Failure? <==> exists k :: 0 <= k < |kept| && !HasValidOperation(kept[k])
    ensures Expected(fragments).Failure? ==> Expected(fragments).error == InvalidOperation
  {
  }

  /** The batch fails exactly when some non-blank fragment's first token,
      upper-cased, is not a valid operation; the error is then always
      "invalid operation", never "empty command". */
  lemma ParseFailsIff(commandsString: string)
    ensures var kept := NonBlank(Split(commandsString, ';'));
      Parse(commandsString).Failure? <==> exists k :: 0 <= k < |kept| && !HasValidOperation(kept[k])
    ensures Parse(commandsString).Failure? ==> Parse(commandsString).error == InvalidOperation
  {
    var fragments := Split(commandsString, ';');
    ParseFragmentsIsExpected(fragments);
    ExpectedFailsIff(fragments);
  }

  /** A rejected batch reports the text "invalid operation". */
  lemma ParseFailureMessage(commandsString: string)
    ensures Parse(commandsString).Failure? ==> Parse(commandsString).error.Message() == "invalid operation"
  {
    ParseFailsIff(commandsString);
  }

  /** On success the commands are, in order, one per non-blank fragment:
      the operation is the fragment's first token upper-cased, and the
      arguments are the remaining single-space-separated tokens, verbatim. */
  lemma ParseCommandsInOrder(commandsString: string, k: nat)
    requires Parse(commandsString).Success?
    ensures var kept := NonBlank(Split(commandsString, ';'));
      var cs := Parse(commandsString).value;
      |cs| == |kept| &&
      (k < |cs| ==> cs[k].operation == ToUpper(Split(kept[k], ' ')[0]) &&
                    cs[k].args == Split(kept[k], ' ')[1..])
  {
    ParseFragmentsIsExpected(Split(commandsString, ';'));
  }

  /** How `NonBlank` treats the first fragment. */
  lemma NonBlankCons(fragment: string, rest: seq<string>)
    ensures NonBlank([fragment] + rest) ==
      (if TrimSpace(fragment) == "" then [] else [TrimSpace(fragment)]) + NonBlank(rest)
  {
    assert ([fragment] + rest)[1..] == rest;
  }

  /** Each non-blank fragment's text appears in `NonBlank`. */
  lemma {:induction false} NonBlankHas(fragments: seq<string>, j: nat)
    requires j < |fragments| && TrimSpace(fragments[j]) != ""
    ensures TrimSpace(fragments[j]) in NonBlank(fragments)
  {
    var rest := fragments[1..];
    assert fragments == [fragments[0]] + rest;
    NonBlankCons(fragments[0], rest);
    if j > 0 {
      assert rest[j - 1] == fragments[j];
      NonBlankHas(rest, j - 1);
    }
  }

  /** One fragment with an unknown operation aborts the whole batch, even
      when the fragments before it are valid. */
  lemma InvalidFragmentAborts(commandsString: string, j: nat)
    requires j < |Split(commandsString, ';')|
    requires TrimSpace(Split(commandsString, ';')[j]) != ""
    requires !HasValidOperation(TrimSpace(Split(commandsString, ';')[j]))
    ensures Parse(commandsString) == Failure(InvalidOperation)
  {
    NonBlankHas(Split(commandsString, ';'), j);
    ParseFragmentsIsExpected(Split(commandsString, ';'));
  }

  /** Parsing `s1 + ";" + s2` is parsing `s1` and then `s2`. */
  lemma ParseConcat(s1: string, s2: string)
    ensures Parse(s1 + ";" + s2) == Then(Parse(s1), Parse(s2))
  {
    SplitConcat(s1, s2, ';');
    ParseFragmentsAppend(Split(s1, ';'), Split(s2, ';'));
  }

  /** When both halves parse, the batch `s1 + ";" + s2` yields the commands
      of `s1` followed by those of `s2`. */
  lemma ParseConcatSuccess(s1: string, s2: string)
    requires Parse(s1).Success? && Parse(s2).Success?
    ensures Parse(s1 + ";" + s2) == Success(Parse(s1).value + Parse(s2).value)
  {
    ParseConcat(s1, s2);
  }

  /** A blank fragment adds nothing. */
  lemma BlankFragment(fragment: string)
    requires AllSpace(fragment)
    ensures ParseFragments([fragment]) == Success([])
  {
    SingleFragment(fragment);
  }

  /** Input made only of white space (the empty string included) is an
      empty batch. */
  lemma WhitespaceOnlyIsEmpty(commandsString: string)
    requires AllSpace(commandsString)
    ensures Parse(commandsString) == Success([])
  {
    assert ';' !in commandsString;
    SplitWithoutSeparator(commandsString, ';');
    BlankFragment(commandsString);
  }

  /** A trailing `;` adds an empty fragment and changes nothing. */
  lemma TrailingSemicolon(commandsString: string)
    ensures Parse(commandsString + ";") == Parse(commandsString)
  {
    var fragments := Split(commandsString, ';');
    assert commandsString + ";" == commandsString + [';'] + [];
    SplitConcat(commandsString, [], ';');
    assert Split(commandsString + ";", ';') == fragments + [[]];
    ParseFragmentsAppend(fragments, [[]]);
    BlankFragment([]);
    var r := ParseFragments(fragments);
    if r.Success? {
      assert r.value + [] == r.value;
    }
  }

  /** The cut at single spaces of `head + rest`, when `rest` is empty or
      starts with a space and `head` has no space. */
  lemma TokensOfHead(head: string, rest: string)
    requires ' ' !in head
    requires rest == "" || rest[0] == ' '
    ensures Split(head + rest, ' ')[0] == head
    ensures Split(head + rest, ' ')[1..] == if rest == "" then [] else Split(rest[1..], ' ')
  {
    if rest == "" {
      assert head + rest == head;
      SplitWithoutSeparator(head, ' ');
    } else {
      assert head + rest == head + [' '] + rest[1..];
      SplitConcat(head, rest[1..], ' ');
      SplitWithoutSeparator(head, ' ');
    }
  }

  /** Only the operation token is case-normalised: two fragments whose
      trimmed text differs only in the case of the operation (`get a`,
      `GET a`) parse to the same outcome. */
  lemma OperationCaseInsensitive(f1: string, f2: string, op1: string, op2: string, rest: string)
    requires ' ' !in op1 && ' ' !in op2
    requires rest == "" || rest[0] == ' '
    requires TrimSpace(f1) == op1 + rest && TrimSpace(f2) == op2 + rest
    requires ToUpper(op1) == ToUpper(op2)
    ensures ParseFragment(f1) == ParseFragment(f2)
  {
    assert |op1| == |op2|;
    TokensOfHead(op1, rest);
    TokensOfHead(op2, rest);
  }

  // ---------------------------------------------------------------- worked examples

  /** A single trimmed fragment with a valid operation is one command. */
  lemma OneCommand(text: string)
    requires ';' !in text && text != "" && !IsSpace(text[0]) && !IsSpace(text[|text| - 1])
    requires HasValidOperation(text)
    ensures Parse(text) == Success([CommandOf(text)])
  {
    SplitWithoutSeparator(text, ';');
    TrimSpaceOfTrimmed(text);
    SingleFragment(text);
  }

  /** A single trimmed fragment with an unknown operation is rejected. */
  lemma OneRejected(text: string)
    requires ';' !in text && text != "" && !IsSpace(text[0]) && !IsSpace(text[|text| - 1])
    requires !HasValidOperation(text)
    ensures Parse(text) == Failure(InvalidOperation)
  {
    SplitWithoutSeparator(text, ';');
    TrimSpaceOfTrimmed(text);
    SingleFragment(text);
  }

  /** An operation token followed by the one argument `a`. */
  lemma OperationWithA(op: string)
    requires op != "" && ' ' !in op && ';' !in op && !IsSpace(op[0])
    requires ToUpper(op) == OperationGet
    ensures Parse(op + " a") == Success([Command(OperationGet, ["a"])])
  {
    SplitWithoutSeparator("a", ' ');
    TokensOfHead(op, " a");
    assert ';' !in op + " a";
    OneCommand(op + " a");
  }

  /** `get a` and `GET a` are the same command. */
  lemma GetInAnyCase()
    ensures Parse("get a") == Parse("GET a") == Success([Command("GET", ["a"])])
  {
    LowerGetA();
    UpperGetA();
  }

  lemma LowerGetA()
    ensures Parse("get a") == Success([Command("GET", ["a"])])
  {
    assert "get a" == "get" + " a";
    OperationWithA("get");
  }

  lemma UpperGetA()
    ensures Parse("GET a") == Success([Command("GET", ["a"])])
  {
    assert "GET a" == "GET" + " a";
    OperationWithA("GET");
  }

  lemma DoubleSpaceTokens()
    ensures Split("GET  a", ' ') == ["GET", "", "a"]
  {
    assert "GET  a" == "GET" + "  a";
    TokensOfHead("GET", "  a");
    assert "  a"[1..] == "" + " a";
    TokensOfHead("", " a");
    SplitWithoutSeparator("a", ' ');
  }

  /** Two adjacent spaces make an empty argument. */
  lemma DoubleSpaceArgument()
    ensures Parse("GET  a") == Success([Command("GET", ["", "a"])])
  {
    DoubleSpaceTokens();
    assert ToUpper("GET") == "GET";
    OneCommand("GET  a");
  }

  /** Nothing but separators is an empty batch. */
  lemma OnlySeparators()
    ensures Parse(";;") == Success([])
  {
  }

  lemma UnknownOperation()
    ensures Parse("FOO b") == Failure(InvalidOperation)
  {
    assert "FOO b" == "FOO" + " b";
    TokensOfHead("FOO", " b");
    assert ToUpper("FOO") == "FOO";
    OneRejected("FOO b");
  }

  /** The valid `GET a` before an unknown operation is discarded with the batch. */
  lemma InvalidAfterValid()
    ensures Parse("GET a;FOO b") == Failure(InvalidOperation)
  {
    assert "GET a;FOO b" == "GET a" + ";" + "FOO b";
    ParseConcat("GET a", "FOO b");
    UnknownOperation();
  }
}
