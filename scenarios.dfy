/** Concrete command lines and what ReadLine makes of them. */
module Scenarios {
  import opened Ascii
  import opened ArgReader
  import opened LineReader

  /** The switches a new CommanderCLI starts with. */
  const Defaults := Config(true, false)

  /** A line of one token: its first token ends at a newline. */
  lemma OneToken(s: seq<char>, t: Token)
    requires HasHardEnd(s) && ReadArgOf(s) == t && !t.soft
    ensures LineTokens(s) == [t]
  {
  }

  /** A line of two tokens, from what ReadArg reads at its start and after its first token. */
  lemma TwoTokens(s: seq<char>, t0: Token, t1: Token)
    requires Terminated(s) && ReadArgOf(s) == t0 && t0.soft
    requires HasHardEnd(After(s)) && ReadArgOf(After(s)) == t1 && !t1.soft
    ensures HasHardEnd(s) && LineTokens(s) == [t0, t1]
  {
    HardEndFromRest(s);
    SoftTokens(s);
  }

  /** A line of three tokens, likewise. */
  lemma ThreeTokens(s: seq<char>, t0: Token, t1: Token, t2: Token)
    requires Terminated(s) && ReadArgOf(s) == t0 && t0.soft
    requires Terminated(After(s)) && ReadArgOf(After(s)) == t1 && t1.soft
    requires HasHardEnd(After(After(s))) && ReadArgOf(After(After(s))) == t2 && !t2.soft
    ensures HasHardEnd(s) && LineTokens(s) == [t0, t1, t2]
  {
    TwoTokens(After(s), t1, t2);
    HardEndFromRest(s);
    SoftTokens(s);
  }

  /** The only token of "\n". */
  lemma EmptyLineToken0()
    ensures HasHardEnd("\n") && ReadArgOf("\n") == Token("", false, false)
  {
    PlainWordKept("\n", 0);
    assert "\n"[..0] == "";
    assert HardEndAt("\n", 0);
  }

  /** The line "\n" is the single token "". */
  lemma EmptyLineTokens()
    ensures HasHardEnd("\n")
    ensures LineTokens("\n") == [Token("", false, false)]
  {
    EmptyLineToken0();
    OneToken("\n", Token("", false, false));
  }

  /** How ReadLine saves the tokens of "\n". */
  lemma EmptyLineSaved()
    ensures ArgsOf([Token("", false, false)], Defaults) == [Some("")]
    ensures FlagsOf([Token("", false, false)], Defaults) == []
    ensures Continues([Some("")])
  {
    assert Classify(Token("", false, false), Defaults) == Positional("");
    ListsCons(Token("", false, false), [], Defaults);
    assert |Lower("")| == 0 && Lower("") != "exit";
  }

  /** An empty line is one empty argument, not zero arguments. */
  lemma EmptyLine()
    ensures HasHardEnd("\n")
    ensures ReadLineOf("\n", Defaults) == Line([Some("")], [], true)
  {
    EmptyLineTokens();
    EmptyLineSaved();
  }

  /** The first token of "a b c\n". */
  lemma ThreeWordsToken0()
    ensures Terminated("a b c\n") && ReadArgOf("a b c\n") == Token("a", true, false)
    ensures After("a b c\n") == "b c\n"
  {
    PlainWordKept("a b c\n", 1);
    assert "a b c\n"[..1] == "a";
  }

  /** The third token of "a b c\n". */
  lemma ThreeWordsToken2()
    ensures HasHardEnd("c\n") && ReadArgOf("c\n") == Token("c", false, false)
  {
    PlainWordKept("c\n", 1);
    assert "c\n"[..1] == "c";
    assert HardEndAt("c\n", 1);
  }

  /** The tokens of "a b c\n", in order. */
  lemma ThreeWordsTokens()
    ensures HasHardEnd("a b c\n")
    ensures LineTokens("a b c\n") == [Token("a", true, false), Token("b", true, false), Token("c", false, false)]
  {
    ThreeWordsToken0();
    PlainWordKept("b c\n", 1);
    assert "b c\n"[..1] == "b";
    ThreeWordsToken2();
    ThreeTokens("a b c\n", Token("a", true, false), Token("b", true, false), Token("c", false, false));
  }

  /** How ReadLine saves the tokens of "a b c\n". */
  lemma ThreeWordsSaved()
    ensures ArgsOf([Token("a", true, false), Token("b", true, false), Token("c", false, false)], Defaults) == [Some("a"), Some("b"), Some("c")]
    ensures FlagsOf([Token("a", true, false), Token("b", true, false), Token("c", false, false)], Defaults) == []
    ensures Continues([Some("a"), Some("b"), Some("c")])
  {
    assert Classify(Token("a", true, false), Defaults) == Positional("a");
    assert Classify(Token("b", true, false), Defaults) == Positional("b");
    assert Classify(Token("c", false, false), Defaults) == Positional("c");
    ListsCons(Token("c", false, false), [], Defaults);
    ListsCons(Token("b", true, false), [Token("c", false, false)], Defaults);
    ListsCons(Token("a", true, false), [Token("b", true, false), Token("c", false, false)], Defaults);
    assert |Lower("a")| == 1 && Lower("a") != "exit";
  }

  /** Words separated by single spaces are the arguments, in order. */
  lemma ThreeWords()
    ensures HasHardEnd("a b c\n")
    ensures ReadLineOf("a b c\n", Defaults) == Line([Some("a"), Some("b"), Some("c")], [], true)
  {
    ThreeWordsTokens();
    ThreeWordsSaved();
  }

  /** The second token of "a  b\n". */
  lemma DoubleSpaceToken1()
    ensures Terminated(" b\n") && ReadArgOf(" b\n") == Token("", true, false)
    ensures After(" b\n") == "b\n"
  {
    PlainWordKept(" b\n", 0);
    assert " b\n"[..0] == "";
  }

  /** The tokens of "a  b\n", in order. */
  lemma DoubleSpaceTokens()
    ensures HasHardEnd("a  b\n")
    ensures LineTokens("a  b\n") == [Token("a", true, false), Token("", true, false), Token("b", false, false)]
  {
    PlainWordKept("a  b\n", 1);
    assert "a  b\n"[..1] == "a";
    DoubleSpaceToken1();
    PlainWordKept("b\n", 1);
    assert "b\n"[..1] == "b";
    assert HardEndAt("b\n", 1);
    ThreeTokens("a  b\n", Token("a", true, false), Token("", true, false), Token("b", false, false));
  }

  /** How ReadLine saves the tokens of "a  b\n". */
  lemma DoubleSpaceSaved()
    ensures ArgsOf([Token("a", true, false), Token("", true, false), Token("b", false, false)], Defaults) == [Some("a"), Some(""), Some("b")]
    ensures FlagsOf([Token("a", true, false), Token("", true, false), Token("b", false, false)], Defaults) == []
    ensures Continues([Some("a"), Some(""), Some("b")])
  {
    assert Classify(Token("a", true, false), Defaults) == Positional("a");
    assert Classify(Token("", true, false), Defaults) == Positional("");
    assert Classify(Token("b", false, false), Defaults) == Positional("b");
    ListsCons(Token("b", false, false), [], Defaults);
    ListsCons(Token("", true, false), [Token("b", false, false)], Defaults);
    ListsCons(Token("a", true, false), [Token("", true, false), Token("b", false, false)], Defaults);
    assert |Lower("a")| == 1 && Lower("a") != "exit";
  }

  /** Two spaces in a row give an empty argument between them. */
  lemma DoubleSpace()
    ensures HasHardEnd("a  b\n")
    ensures ReadLineOf("a  b\n", Defaults) == Line([Some("a"), Some(""), Some("b")], [], true)
  {
    DoubleSpaceTokens();
    DoubleSpaceSaved();
  }

  /** The first token of "--v x\n". */
  lemma FlagThenArgumentToken0()
    ensures Terminated("--v x\n") && ReadArgOf("--v x\n") == Token("--v", true, false)
    ensures After("--v x\n") == "x\n"
  {
    PlainWordKept("--v x\n", 3);
    assert "--v x\n"[..3] == "--v";
  }

  /** The tokens of "--v x\n", in order. */
  lemma FlagThenArgumentTokens()
    ensures HasHardEnd("--v x\n")
    ensures LineTokens("--v x\n") == [Token("--v", true, false), Token("x", false, false)]
  {
    FlagThenArgumentToken0();
    PlainWordKept("x\n", 1);
    assert "x\n"[..1] == "x";
    assert HardEndAt("x\n", 1);
    TwoTokens("--v x\n", Token("--v", true, false), Token("x", false, false));
  }

  /** How ReadLine saves the tokens of "--v x\n". */
  lemma FlagThenArgumentSaved()
    ensures ArgsOf([Token("--v", true, false), Token("x", false, false)], Defaults) == [Some("x")]
    ensures FlagsOf([Token("--v", true, false), Token("x", false, false)], Defaults) == ["v"]
    ensures Continues([Some("x")])
  {
    assert "--v"[..2] == "--";
    assert Classify(Token("--v", true, false), Defaults) == Flag("v");
    assert Classify(Token("x", false, false), Defaults) == Positional("x");
    ListsCons(Token("x", false, false), [], Defaults);
    ListsCons(Token("--v", true, false), [Token("x", false, false)], Defaults);
    assert |Lower("x")| == 1 && Lower("x") != "exit";
  }

  /** A `--` token becomes a flag named without its dashes. */
  lemma FlagThenArgument()
    ensures HasHardEnd("--v x\n")
    ensures ReadLineOf("--v x\n", Defaults) == Line([Some("x")], ["v"], true)
  {
    FlagThenArgumentTokens();
    FlagThenArgumentSaved();
  }

  /** How ReadLine saves the tokens of "--v x\n". */
  lemma FlagsOffSaved()
    ensures ArgsOf([Token("--v", true, false), Token("x", false, false)], Config(false, false)) == [Some("--v"), Some("x")]
    ensures FlagsOf([Token("--v", true, false), Token("x", false, false)], Config(false, false)) == []
    ensures Continues([Some("--v"), Some("x")])
  {
    assert "--v"[..2] == "--";
    assert Classify(Token("--v", true, false), Config(false, false)) == Positional("--v");
    assert Classify(Token("x", false, false), Config(false, false)) == Positional("x");
    ListsCons(Token("x", false, false), [], Config(false, false));
    ListsCons(Token("--v", true, false), [Token("x", false, false)], Config(false, false));
    assert |Lower("--v")| == 3 && Lower("--v") != "exit";
  }

  /** With flag reading off, `--v` stays a positional argument. */
  lemma FlagsOff()
    ensures HasHardEnd("--v x\n")
    ensures ReadLineOf("--v x\n", Config(false, false)) == Line([Some("--v"), Some("x")], [], true)
  {
    FlagThenArgumentTokens();
    FlagsOffSaved();
  }

  /** The line "\"--v\"\n" is the single token "--v". */
  lemma QuotedFlagTokens()
    ensures HasHardEnd("\"--v\"\n")
    ensures LineTokens("\"--v\"\n") == [Token("--v", false, true)]
  {
    QuotedToken("--v", '\n', "");
    assert ['"'] + "--v" + ['"', '\n'] + "" == "\"--v\"\n";
    assert HardEndAt("\"--v\"\n", 5);
    OneToken("\"--v\"\n", Token("--v", false, true));
  }

  /** How ReadLine saves the tokens of "\"--v\"\n". */
  lemma QuotedFlagSaved()
    ensures ArgsOf([Token("--v", false, true)], Defaults) == [Some("--v")]
    ensures FlagsOf([Token("--v", false, true)], Defaults) == []
    ensures Continues([Some("--v")])
  {
    assert "--v"[..2] == "--";
    assert Classify(Token("--v", false, true), Defaults) == Positional("--v");
    ListsCons(Token("--v", false, true), [], Defaults);
    assert |Lower("--v")| == 3 && Lower("--v") != "exit";
  }

  /** Quoting keeps `--v` an argument. */
  lemma QuotedFlag()
    ensures HasHardEnd("\"--v\"\n")
    ensures ReadLineOf("\"--v\"\n", Defaults) == Line([Some("--v")], [], true)
  {
    QuotedFlagTokens();
    QuotedFlagSaved();
  }

  /** The only token of "EXIT\n". */
  lemma ExitAnyCaseToken0()
    ensures HasHardEnd("EXIT\n") && ReadArgOf("EXIT\n") == Token("EXIT", false, false)
  {
    PlainWordKept("EXIT\n", 4);
    assert "EXIT\n"[..4] == "EXIT";
    assert HardEndAt("EXIT\n", 4);
  }

  /** The line "EXIT\n" is the single token "EXIT". */
  lemma ExitAnyCaseTokens()
    ensures HasHardEnd("EXIT\n")
    ensures LineTokens("EXIT\n") == [Token("EXIT", false, false)]
  {
    ExitAnyCaseToken0();
    OneToken("EXIT\n", Token("EXIT", false, false));
  }

  /** How ReadLine saves the tokens of "EXIT\n". */
  lemma ExitAnyCaseSaved()
    ensures ArgsOf([Token("EXIT", false, false)], Defaults) == [Some("EXIT")]
    ensures FlagsOf([Token("EXIT", false, false)], Defaults) == []
    ensures !Continues([Some("EXIT")])
  {
    assert "EXIT"[..2] == "EX";
    assert Classify(Token("EXIT", false, false), Defaults) == Positional("EXIT");
    ListsCons(Token("EXIT", false, false), [], Defaults);
    assert Lower("EXIT") == "exit";
  }

  /** `exit` in any case stops the session. */
  lemma ExitAnyCase()
    ensures HasHardEnd("EXIT\n")
    ensures ReadLineOf("EXIT\n", Defaults) == Line([Some("EXIT")], [], false)
  {
    ExitAnyCaseTokens();
    ExitAnyCaseSaved();
  }

  /** The line "\"exit\"\n" is the single token "exit". */
  lemma QuotedExitTokens()
    ensures HasHardEnd("\"exit\"\n")
    ensures LineTokens("\"exit\"\n") == [Token("exit", false, true)]
  {
    QuotedToken("exit", '\n', "");
    assert ['"'] + "exit" + ['"', '\n'] + "" == "\"exit\"\n";
    assert HardEndAt("\"exit\"\n", 6);
    OneToken("\"exit\"\n", Token("exit", false, true));
  }

  /** How ReadLine saves the tokens of "\"exit\"\n". */
  lemma QuotedExitSaved()
    ensures ArgsOf([Token("exit", false, true)], Defaults) == [Some("exit")]
    ensures FlagsOf([Token("exit", false, true)], Defaults) == []
    ensures !Continues([Some("exit")])
  {
    assert "exit"[..2] == "ex";
    assert Classify(Token("exit", false, true), Defaults) == Positional("exit");
    ListsCons(Token("exit", false, true), [], Defaults);
    assert Lower("exit") == "exit";
  }

  /** A quoted `exit` stops the session too. */
  lemma QuotedExit()
    ensures HasHardEnd("\"exit\"\n")
    ensures ReadLineOf("\"exit\"\n", Defaults) == Line([Some("exit")], [], false)
  {
    QuotedExitTokens();
    QuotedExitSaved();
  }

  /** The only token of "--exit\n". */
  lemma ExitAsFlagToken0()
    ensures HasHardEnd("--exit\n") && ReadArgOf("--exit\n") == Token("--exit", false, false)
  {
    PlainWordKept("--exit\n", 6);
    assert "--exit\n"[..6] == "--exit";
    assert HardEndAt("--exit\n", 6);
  }

  /** The line "--exit\n" is the single token "--exit". */
  lemma ExitAsFlagTokens()
    ensures HasHardEnd("--exit\n")
    ensures LineTokens("--exit\n") == [Token("--exit", false, false)]
  {
    ExitAsFlagToken0();
    OneToken("--exit\n", Token("--exit", false, false));
  }

  /** How ReadLine saves the tokens of "--exit\n". */
  lemma ExitAsFlagSaved()
    ensures ArgsOf([Token("--exit", false, false)], Defaults) == []
    ensures FlagsOf([Token("--exit", false, false)], Defaults) == ["exit"]
    ensures Continues([])
  {
    assert "--exit"[..2] == "--";
    assert Classify(Token("--exit", false, false), Defaults) == Flag("exit");
    ListsCons(Token("--exit", false, false), [], Defaults);
  }

  /** An `exit` read as a flag does not stop the session. */
  lemma ExitAsFlag()
    ensures HasHardEnd("--exit\n")
    ensures ReadLineOf("--exit\n", Defaults) == Line([], ["exit"], true)
  {
    ExitAsFlagTokens();
    ExitAsFlagSaved();
  }

  /** The only token of "NULL\n". */
  lemma NullLiteralToken0()
    ensures HasHardEnd("NULL\n") && ReadArgOf("NULL\n") == Token("NULL", false, false)
  {
    PlainWordKept("NULL\n", 4);
    assert "NULL\n"[..4] == "NULL";
    assert HardEndAt("NULL\n", 4);
  }

  /** The line "NULL\n" is the single token "NULL". */
  lemma NullLiteralTokens()
    ensures HasHardEnd("NULL\n")
    ensures LineTokens("NULL\n") == [Token("NULL", false, false)]
  {
    NullLiteralToken0();
    OneToken("NULL\n", Token("NULL", false, false));
  }

  /** How ReadLine saves the tokens of "NULL\n". */
  lemma NullLiteralSaved()
    ensures ArgsOf([Token("NULL", false, false)], Config(true, true)) == [None]
    ensures FlagsOf([Token("NULL", false, false)], Config(true, true)) == []
    ensures Continues([None])
  {
    assert Lower("NULL") == "null";
    assert "NULL"[..2] == "NU";
    assert Classify(Token("NULL", false, false), Config(true, true)) == NullArg;
    ListsCons(Token("NULL", false, false), [], Config(true, true));
  }

  /** With nulls parsed, a bare `null` in any case is a null argument, which does not stop the session. */
  lemma NullLiteral()
    ensures HasHardEnd("NULL\n")
    ensures ReadLineOf("NULL\n", Config(true, true)) == Line([None], [], true)
  {
    NullLiteralTokens();
    NullLiteralSaved();
  }

  /** The only token of "\\null\n". */
  lemma EscapedNullToken0()
    ensures HasHardEnd("\\null\n") && ReadArgOf("\\null\n") == Token("null", false, false)
  {
    assert StateAt("\\null\n", 1) == ArgState(true, false) && TokenOf("\\null\n", 1) == "" && Used("\\null\n", 1) == false;
    assert StateAt("\\null\n", 2) == ArgState(false, false) && TokenOf("\\null\n", 2) == "n" && Used("\\null\n", 2) == false;
    assert StateAt("\\null\n", 3) == ArgState(false, false) && TokenOf("\\null\n", 3) == "nu" && Used("\\null\n", 3) == false;
    assert StateAt("\\null\n", 4) == ArgState(false, false) && TokenOf("\\null\n", 4) == "nul" && Used("\\null\n", 4) == false;
    assert StateAt("\\null\n", 5) == ArgState(false, false) && TokenOf("\\null\n", 5) == "null" && Used("\\null\n", 5) == false;
    assert forall j :: 0 <= j < 5 ==> "\\null\n"[j] != ' ' && "\\null\n"[j] != '\n';
    assert EndsAt("\\null\n", 5);
    FirstEndIsFirst("\\null\n");
    assert FirstEnd("\\null\n") == 5;
    assert HardEndAt("\\null\n", 5);
  }

  /** The line "\\null\n" is the single token "null". */
  lemma EscapedNullTokens()
    ensures HasHardEnd("\\null\n")
    ensures LineTokens("\\null\n") == [Token("null", false, false)]
  {
    EscapedNullToken0();
    OneToken("\\null\n", Token("null", false, false));
  }

  /** How ReadLine saves the tokens of "\\null\n". */
  lemma EscapedNullSaved()
    ensures ArgsOf([Token("null", false, false)], Config(true, true)) == [None]
    ensures FlagsOf([Token("null", false, false)], Config(true, true)) == []
    ensures Continues([None])
  {
    assert Lower("null") == "null";
    assert "null"[..2] == "nu";
    assert Classify(Token("null", false, false), Config(true, true)) == NullArg;
    ListsCons(Token("null", false, false), [], Config(true, true));
  }

  /** With nulls parsed, an escaped `null` is still a null argument. */
  lemma EscapedNull()
    ensures HasHardEnd("\\null\n")
    ensures ReadLineOf("\\null\n", Config(true, true)) == Line([None], [], true)
  {
    EscapedNullTokens();
    EscapedNullSaved();
  }

  /** The line "\"null\"\n" is the single token "null". */
  lemma QuotedNullTokens()
    ensures HasHardEnd("\"null\"\n")
    ensures LineTokens("\"null\"\n") == [Token("null", false, true)]
  {
    QuotedToken("null", '\n', "");
    assert ['"'] + "null" + ['"', '\n'] + "" == "\"null\"\n";
    assert HardEndAt("\"null\"\n", 6);
    OneToken("\"null\"\n", Token("null", false, true));
  }

  /** How ReadLine saves the tokens of "\"null\"\n". */
  lemma QuotedNullSaved()
    ensures ArgsOf([Token("null", false, true)], Config(true, true)) == [Some("null")]
    ensures FlagsOf([Token("null", false, true)], Config(true, true)) == []
    ensures Continues([Some("null")])
  {
    assert Lower("null") == "null";
    assert "null"[..2] == "nu";
    assert Classify(Token("null", false, true), Config(true, true)) == Positional("null");
    ListsCons(Token("null", false, true), [], Config(true, true));
    assert |Lower("null")| == 4 && Lower("null") != "exit";
  }

  /** A quoted `null` stays text even with nulls parsed. */
  lemma QuotedNull()
    ensures HasHardEnd("\"null\"\n")
    ensures ReadLineOf("\"null\"\n", Config(true, true)) == Line([Some("null")], [], true)
  {
    QuotedNullTokens();
    QuotedNullSaved();
  }

  /** The only token of "a\\ b\n". */
  lemma EscapedSpaceToken0()
    ensures HasHardEnd("a\\ b\n") && ReadArgOf("a\\ b\n") == Token("a b", false, false)
  {
    assert StateAt("a\\ b\n", 1) == ArgState(false, false) && TokenOf("a\\ b\n", 1) == "a" && Used("a\\ b\n", 1) == false;
    assert StateAt("a\\ b\n", 2) == ArgState(true, false) && TokenOf("a\\ b\n", 2) == "a" && Used("a\\ b\n", 2) == false;
    assert StateAt("a\\ b\n", 3) == ArgState(false, false) && TokenOf("a\\ b\n", 3) == "a " && Used("a\\ b\n", 3) == false;
    assert StateAt("a\\ b\n", 4) == ArgState(false, false) && TokenOf("a\\ b\n", 4) == "a b" && Used("a\\ b\n", 4) == false;
    assert forall j :: 0 <= j < 4 && j != 2 ==> "a\\ b\n"[j] != ' ' && "a\\ b\n"[j] != '\n';
    assert !EndsAt("a\\ b\n", 2) && EndsAt("a\\ b\n", 4);
    FirstEndIsFirst("a\\ b\n");
    assert FirstEnd("a\\ b\n") == 4;
    assert HardEndAt("a\\ b\n", 4);
  }

  /** The line "a\\ b\n" is the single token "a b". */
  lemma EscapedSpaceTokens()
    ensures HasHardEnd("a\\ b\n")
    ensures LineTokens("a\\ b\n") == [Token("a b", false, false)]
  {
    EscapedSpaceToken0();
    OneToken("a\\ b\n", Token("a b", false, false));
  }

  /** How ReadLine saves the tokens of "a\\ b\n". */
  lemma EscapedSpaceSaved()
    ensures ArgsOf([Token("a b", false, false)], Defaults) == [Some("a b")]
    ensures FlagsOf([Token("a b", false, false)], Defaults) == []
    ensures Continues([Some("a b")])
  {
    assert "a b"[..2] == "a ";
    assert Classify(Token("a b", false, false), Defaults) == Positional("a b");
    ListsCons(Token("a b", false, false), [], Defaults);
    assert |Lower("a b")| == 3 && Lower("a b") != "exit";
  }

  /** An escaped space joins two words into one argument. */
  lemma EscapedSpace()
    ensures HasHardEnd("a\\ b\n")
    ensures ReadLineOf("a\\ b\n", Defaults) == Line([Some("a b")], [], true)
  {
    EscapedSpaceTokens();
    EscapedSpaceSaved();
  }

  /** The first token of "a\tb \"c\td\"\n". */
  lemma TabDroppedToken0()
    ensures Terminated("a\tb \"c\td\"\n") && ReadArgOf("a\tb \"c\td\"\n") == Token("ab", true, false)
    ensures After("a\tb \"c\td\"\n") == "\"c\td\"\n"
  {
    PlainWord("a\tb \"c\td\"\n", 3);
    assert "a\tb \"c\td\"\n"[..3] == "a\tb";
    TabsDropped();
  }

  /** The tokens of "a\tb \"c\td\"\n", in order. */
  lemma TabDroppedTokens()
    ensures HasHardEnd("a\tb \"c\td\"\n")
    ensures LineTokens("a\tb \"c\td\"\n") == [Token("ab", true, false), Token("c\td", false, true)]
  {
    TabDroppedToken0();
    QuotedToken("c\td", '\n', "");
    assert ['"'] + "c\td" + ['"', '\n'] + "" == "\"c\td\"\n";
    assert HardEndAt("\"c\td\"\n", 5);
    TwoTokens("a\tb \"c\td\"\n", Token("ab", true, false), Token("c\td", false, true));
  }

  /** How ReadLine saves the tokens of "a\tb \"c\td\"\n". */
  lemma TabDroppedSaved()
    ensures ArgsOf([Token("ab", true, false), Token("c\td", false, true)], Defaults) == [Some("ab"), Some("c\td")]
    ensures FlagsOf([Token("ab", true, false), Token("c\td", false, true)], Defaults) == []
    ensures Continues([Some("ab"), Some("c\td")])
  {
    assert Classify(Token("ab", true, false), Defaults) == Positional("ab");
    assert "c\td"[..2] == "c\t";
    assert Classify(Token("c\td", false, true), Defaults) == Positional("c\td");
    ListsCons(Token("c\td", false, true), [], Defaults);
    ListsCons(Token("ab", true, false), [Token("c\td", false, true)], Defaults);
    assert |Lower("ab")| == 2 && Lower("ab") != "exit";
  }

  /** A tab outside quotes is dropped; inside quotes it is kept. */
  lemma TabDropped()
    ensures HasHardEnd("a\tb \"c\td\"\n")
    ensures ReadLineOf("a\tb \"c\td\"\n", Defaults) == Line([Some("ab"), Some("c\td")], [], true)
  {
    TabDroppedTokens();
    TabDroppedSaved();
  }

  /** The word "a\tb" without its tabs and carriage returns. */
  lemma TabsDropped()
    ensures StripTabsAndReturns("a\tb") == "ab"
  {
    assert StripTabsAndReturns("a") == "a";
    assert StripTabsAndReturns("a\t") == "a";
    assert StripTabsAndReturns("a\tb") == "ab";
  }

}
