/**
  The server's command grammar: `Command::parse` turns one request line into
  a typed command or a `BadCommandError` carrying a fixed message.
 */
module Commands {

  import opened Results
  import opened Whitespace

  datatype Command = Echo(message: string) | Ls | Cd(dir: string) | Cat(file: string) | Exit

  /** Rust's `u8`, the width of the argument count in `ExpectedArguments::Exactly`. */
  newtype u8 = n: int | 0 <= n < 256

  datatype ExpectedArguments = None | Exactly(count: u8) | Any

  datatype BadCommandError = BadCommandError(msg: string)

  const MissingCommand: string := "Missing command"
  const MissingCdArgument: string := "Missing argument to cd"
  const MissingCatArgument: string := "Missing argument to cat"

  function UnknownCommand(word: string): string {
    "Unknown command " + word
  }

  predicate IsKeyword(word: string) {
    word == "echo" || word == "ls" || word == "cd" || word == "cat" || word == "exit"
  }

  /** The dispatch on the first word; later words are the arguments. */
  function ParseWords(words: seq<string>): Result<Command, BadCommandError> {
    if |words| == 0 then Err(BadCommandError(MissingCommand))
    else
      var command := words[0];
      var args := words[1..];
      if command == "echo" then Ok(Echo(Join(args)))
      else if command == "ls" then Ok(Ls)
      else if command == "cd" then
        if |args| > 0 then Ok(Cd(args[0])) else Err(BadCommandError(MissingCdArgument))
      else if command == "cat" then
        if |args| > 0 then Ok(Cat(args[0])) else Err(BadCommandError(MissingCatArgument))
      else if command == "exit" then Ok(Exit)
      else Err(BadCommandError(UnknownCommand(command)))
  }

  /**
    A command as `parse` can build it: a path argument is one word, and an
    echo message is words separated by single spaces.
   */
  predicate WellFormed(c: Command) {
    match c
    case Echo(m) => Join(Split(m)) == m
    case Cd(d) => IsWord(d)
    case Cat(f) => IsWord(f)
    case _ => true
  }

  /** `Command::parse`. */
  function Parse(line: string): (r: Result<Command, BadCommandError>)
    ensures r == Err(BadCommandError(MissingCommand)) <==> AllWhitespace(line)
    ensures r.Ok? ==> WellFormed(r.value)
  {
    SplitEmptyIff(line);
    var words := Split(line);
    MessagesDiffer(words);
    SplitJoin(if |words| > 0 then words[1..] else []);
    ParseWords(words)
  }

  /** "Missing command" is reported for an empty word list and for nothing else. */
  lemma MessagesDiffer(words: seq<string>)
    ensures ParseWords(words) == Err(BadCommandError(MissingCommand)) <==> |words| == 0
  {
  }

  /** The first word of a line is `word`. */
  predicate FirstWordIs(line: string, word: string) {
    |Split(line)| > 0 && Split(line)[0] == word
  }

  /**
    `echo` never fails: it is chosen exactly when the first word is `echo`,
    its message is the remaining words joined by single spaces, and the
    message splits back into those words.
   */
  lemma ParseEcho(line: string)
    ensures (Parse(line).Ok? && Parse(line).value.Echo?) <==> FirstWordIs(line, "echo")
    ensures FirstWordIs(line, "echo") ==>
      && Parse(line) == Ok(Echo(Join(Split(line)[1..])))
      && Split(Parse(line).value.message) == Split(line)[1..]
  {
    if FirstWordIs(line, "echo") {
      SplitJoin(Split(line)[1..]);
    }
  }

  /**
    `cd` takes its first argument and ignores the rest; without an argument
    it fails with "Missing argument to cd", and with nothing else.
   */
  lemma ParseCd(line: string)
    ensures (Parse(line).Ok? && Parse(line).value.Cd?) <==> (FirstWordIs(line, "cd") && |Split(line)| >= 2)
    ensures Parse(line).Ok? && Parse(line).value.Cd? ==> Parse(line).value.dir == Split(line)[1]
    ensures Parse(line) == Err(BadCommandError(MissingCdArgument)) <==> Split(line) == ["cd"]
  {
    var words := Split(line);
    if |words| > 0 {
      assert UnknownCommand(words[0])[0] == 'U';
      assert |MissingCatArgument| != |MissingCdArgument|;
    }
  }

  /**
    `cat` takes its first argument and ignores the rest; without an argument
    it fails with "Missing argument to cat", and with nothing else.
   */
  lemma ParseCat(line: string)
    ensures (Parse(line).Ok? && Parse(line).value.Cat?) <==> (FirstWordIs(line, "cat") && |Split(line)| >= 2)
    ensures Parse(line).Ok? && Parse(line).value.Cat? ==> Parse(line).value.file == Split(line)[1]
    ensures Parse(line) == Err(BadCommandError(MissingCatArgument)) <==> Split(line) == ["cat"]
  {
    var words := Split(line);
    if |words| > 0 {
      assert UnknownCommand(words[0])[0] == 'U';
      assert |MissingCatArgument| != |MissingCdArgument|;
    }
  }

  /** `ls` and `exit` succeed whatever words follow them. */
  lemma ParseLsExit(line: string)
    ensures Parse(line) == Ok(Ls) <==> FirstWordIs(line, "ls")
    ensures Parse(line) == Ok(Exit) <==> FirstWordIs(line, "exit")
  {
  }

  /**
    A first word that is not one of the five keywords (compared exactly,
    case included) is reported as "Unknown command <word>", and that
    message arises for nothing else.
   */
  lemma ParseUnknown(line: string)
    ensures |Split(line)| > 0 ==>
      (!IsKeyword(Split(line)[0]) <==> Parse(line) == Err(BadCommandError(UnknownCommand(Split(line)[0]))))
  {
  }

  /** The result depends on the words only: a non-empty whitespace run counts as one space. */
  lemma ParseCollapsesWhitespace(a: string, w: string, b: string)
    requires AllWhitespace(w) && |w| > 0
    ensures Parse(a + w + b) == Parse(a + " " + b)
  {
    SplitAround(a, w, b);
    assert AllWhitespace(" ");
    SplitAround(a, " ", b);
  }

  /** Whitespace around a line does not change what it parses to. */
  lemma ParseTrimsWhitespace(w1: string, line: string, w2: string)
    requires AllWhitespace(w1) && AllWhitespace(w2)
    ensures Parse(w1 + line + w2) == Parse(line)
  {
    SplitLeadingWhitespace(w1, line + w2);
    SplitTrailingWhitespace(line, w2);
    assert w1 + line + w2 == w1 + (line + w2);
  }

  function Keyword(c: Command): string {
    match c
    case Echo(_) => "echo"
    case Ls => "ls"
    case Cd(_) => "cd"
    case Cat(_) => "cat"
    case Exit => "exit"
  }

  /** The argument words a command carries. */
  function Arguments(c: Command): seq<string> {
    match c
    case Echo(m) => Split(m)
    case Cd(d) => [d]
    case Cat(f) => [f]
    case _ => []
  }

  /** The canonical request line for a command: its keyword and arguments, single-spaced. */
  function Render(c: Command): string {
    Join([Keyword(c)] + Arguments(c))
  }

  /** Round trip: every command `parse` can build is parsed back from its canonical line. */
  lemma ParseRender(c: Command)
    requires WellFormed(c)
    ensures Parse(Render(c)) == Ok(c)
  {
    SplitRender(c);
    var words := [Keyword(c)] + Arguments(c);
    assert words[0] == Keyword(c) && words[1..] == Arguments(c);
  }

  /**
    A successful parse reads a prefix of the line's words (the keyword and
    the arguments it uses), ignores the rest, and the canonical line of the
    result parses to the same command.
   */
  lemma ParseReadsPrefix(line: string)
    requires Parse(line).Ok?
    ensures Split(Render(Parse(line).value)) <= Split(line)
    ensures Parse(Render(Parse(line).value)) == Parse(line)
  {
    var c := Parse(line).value;
    SplitRender(c);
    WordsReadPrefix(Split(line));
    ParseRender(c);
  }

  /** The dispatch reads the keyword and the arguments its command keeps, a prefix of the words. */
  lemma WordsReadPrefix(words: seq<string>)
    requires AllWords(words) && ParseWords(words).Ok?
    ensures [Keyword(ParseWords(words).value)] + Arguments(ParseWords(words).value) <= words
  {
    var c := ParseWords(words).value;
    if c.Echo? {
      EchoReadsAllWords(words);
    } else if c.Cd? || c.Cat? {
      assert [Keyword(c)] + Arguments(c) == words[..2];
    } else {
      assert [Keyword(c)] + Arguments(c) == words[..1];
    }
  }

  /** The canonical line of a command splits into its keyword and arguments. */
  lemma SplitRender(c: Command)
    requires WellFormed(c)
    ensures Split(Render(c)) == [Keyword(c)] + Arguments(c)
  {
    var words := [Keyword(c)] + Arguments(c);
    assert IsWord(Keyword(c));
    assert AllWords(words);
    SplitJoin(words);
  }

  /** `echo` keeps all words after the keyword. */
  lemma EchoReadsAllWords(words: seq<string>)
    requires AllWords(words) && |words| > 0 && words[0] == "echo"
    ensures ParseWords(words).Ok? && [Keyword(ParseWords(words).value)] + Arguments(ParseWords(words).value) == words
  {
    SplitJoin(words[1..]);
    assert words == [words[0]] + words[1..];
  }

  /** Whether an argument count is what `ExpectedArguments` declares. */
  predicate Admits(e: ExpectedArguments, n: nat) {
    match e
    case None => n == 0
    case Exactly(k) => n == k as int
    case Any => true
  }

  /**
    `expected_arguments`: total over the commands; `echo` takes any number of
    words, `ls` and `exit` none, `cd` and `cat` exactly one, which is the
    number of arguments each command carries.
   */
  function ExpectedArgumentsOf(c: Command): (e: ExpectedArguments)
    ensures Admits(e, |Arguments(c)|)
    ensures e.Any? <==> c.Echo?
    ensures e.None? <==> (c.Ls? || c.Exit?)
    ensures e.Exactly? ==> e.count == 1
  {
    match c
    case Echo(_) => Any
    case Ls => None
    case Cd(_) => Exactly(1)
    case Cat(_) => Exactly(1)
    case Exit => None
  }

  /** Splitting words joined by single spaces, for two concrete words. */
  lemma SplitTwo(a: string, b: string)
    requires IsWord(a) && IsWord(b)
    ensures Split(a + " " + b) == [a, b]
  {
    SplitJoin([a, b]);
  }

  /** `parse` does not check the declared arity: words after `ls` are dropped. */
  lemma ParseLsIgnoresArity()
    ensures Parse("ls x") == Ok(Ls) && !Admits(ExpectedArgumentsOf(Ls), 1)
  {
  }

  /** `parse` does not check the declared arity: a second word after `cd` is dropped. */
  lemma ParseCdIgnoresArity()
    ensures Parse("cd a b") == Ok(Cd("a")) && !Admits(ExpectedArgumentsOf(Cd("a")), 2)
  {
    var words := ["cd", "a", "b"];
    assert IsWord("cd") && IsWord("a") && IsWord("b");
    SplitJoin(words);
    assert Join(words) == "cd a b";
    assert ParseWords(words) == Ok(Cd("a"));
  }

  /** The unit test `parses_echo`. */
  lemma ParseEchoExample()
    ensures Parse("echo some sample text") == Ok(Echo("some sample text"))
  {
    SplitSampleLine();
    ParseEchoLine("echo some sample text", ["echo", "some", "sample", "text"]);
    JoinSampleWords();
  }

  /** A line whose first word is `echo` parses to the other words joined by single spaces. */
  lemma ParseEchoLine(line: string, words: seq<string>)
    requires Split(line) == words && |words| > 0 && words[0] == "echo"
    ensures Parse(line) == Ok(Echo(Join(words[1..])))
  {
  }

  /** The message of the line in `parses_echo`. */
  lemma JoinSampleWords()
    ensures Join(["echo", "some", "sample", "text"][1..]) == "some sample text"
  {
    assert ["echo", "some", "sample", "text"][1..] == ["some", "sample", "text"];
  }

  /** The words of the line in `parses_echo`. */
  lemma SplitSampleLine()
    ensures Split("echo some sample text") == ["echo", "some", "sample", "text"]
  {
    var words := ["echo", "some", "sample", "text"];
    assert IsWord("echo") && IsWord("some") && IsWord("sample") && IsWord("text");
    SplitJoin(words);
    assert Join(words) == "echo some sample text";
  }

  /** The unit test `parses_cd`. */
  lemma ParseCdExample()
    ensures Parse("cd dir") == Ok(Cd("dir"))
  {
    assert IsWord("cd") && IsWord("dir");
    SplitTwo("cd", "dir");
    assert "cd" + " " + "dir" == "cd dir";
  }

  /** Keywords are matched case-sensitively. */
  lemma ParseCaseSensitiveExample()
    ensures Parse("ECHO hi") == Err(BadCommandError("Unknown command ECHO"))
  {
    assert IsWord("ECHO") && IsWord("hi");
    SplitTwo("ECHO", "hi");
    assert "ECHO" + " " + "hi" == "ECHO hi";
    assert "ECHO"[0] != "echo"[0] && "ECHO"[0] != "exit"[0];
    assert !IsKeyword("ECHO");
    assert UnknownCommand("ECHO") == "Unknown command ECHO";
  }
}
