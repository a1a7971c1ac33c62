/** The CommanderCLI class: a reader over a finite input, the two switches,
    the raw text of the line being read and the characters echoed to the
    writers. ReadArg and ReadLine are proved against ReadArgOf and ReadLineOf. */
module Commander {
  import opened Ascii
  import opened ArgReader
  import opened LineReader

  /** The raw buffer and the writers' transcript after one more token: both
      grow by the characters the token consumed. */
  lemma TranscriptStep(input: seq<char>, start: nat, p0: nat, p1: nat,
                       raw0: string, raw1: string, echoed: string, echo0: string, echo1: string)
    requires start <= p0 <= p1 <= |input|
    requires raw0 == input[start..p0] && echo0 == echoed + raw0
    requires raw1 == raw0 + input[p0..p1] && echo1 == echo0 + input[p0..p1]
    ensures raw1 == input[start..p1] && echo1 == echoed + raw1
  {
    assert input[start..p0] + input[p0..p1] == input[start..p1];
    assert echoed + raw0 + input[p0..p1] == echoed + (raw0 + input[p0..p1]);
  }

  /** ReadLine's loop state after reading `input[start..pos]`: part way through
      the line while `more` holds, and the whole line once it fails. */
  ghost predicate LineLoop(input: seq<char>, start: nat, pos: nat, more: bool,
                           args: seq<Option<string>>, flags: seq<string>, cfg: Config)
  {
    start <= pos <= |input| &&
    if more then Progress(input[start..], input[pos..], pos - start, args, flags, cfg)
    else Finished(input[start..], pos - start, args, flags, cfg)
  }

  /** The lists after one more token: saveArg read the token at `p0` and left
      the reader at `p1`. */
  lemma ListsStep(input: seq<char>, start: nat, p0: nat, p1: nat, cfg: Config,
                  args0: seq<Option<string>>, flags0: seq<string>,
                  more: bool, args1: seq<Option<string>>, flags1: seq<string>)
    requires LineLoop(input, start, p0, true, args0, flags0, cfg)
    requires more == ReadArgOf(input[p0..]).soft
    requires args1 == args0 + SavedArgs(Classify(ReadArgOf(input[p0..]), cfg))
    requires flags1 == flags0 + SavedFlags(Classify(ReadArgOf(input[p0..]), cfg))
    requires p1 == p0 + FirstEnd(input[p0..]) + 1
    ensures LineLoop(input, start, p1, more, args1, flags1, cfg)
  {
    AfterSuffix(input, p0);
    if more {
      SoftStep(input, start, p0, p1, cfg, args0, flags0, args1, flags1);
    } else {
      HardStep(input, start, p0, p1, cfg, args0, flags0, args1, flags1);
    }
  }

  /** A token that ended at a space leaves the loop part way through the line. */
  lemma SoftStep(input: seq<char>, start: nat, p0: nat, p1: nat, cfg: Config,
                 args0: seq<Option<string>>, flags0: seq<string>,
                 args1: seq<Option<string>>, flags1: seq<string>)
    requires start <= p0 <= |input|
    requires Progress(input[start..], input[p0..], p0 - start, args0, flags0, cfg)
    requires ReadArgOf(input[p0..]).soft
    requires args1 == args0 + SavedArgs(Classify(ReadArgOf(input[p0..]), cfg))
    requires flags1 == flags0 + SavedFlags(Classify(ReadArgOf(input[p0..]), cfg))
    requires p1 == p0 + FirstEnd(input[p0..]) + 1 && After(input[p0..]) == input[p1..]
    ensures LineLoop(input, start, p1, true, args1, flags1, cfg)
  {
    var u := input[p0..];
    ProgressSoft(input[start..], u, p0 - start, args0, flags0, cfg);
    assert Progress(input[start..], input[p1..], p1 - start, args1, flags1, cfg);
  }

  /** A token that ended at a newline finishes the line. */
  lemma HardStep(input: seq<char>, start: nat, p0: nat, p1: nat, cfg: Config,
                 args0: seq<Option<string>>, flags0: seq<string>,
                 args1: seq<Option<string>>, flags1: seq<string>)
    requires start <= p0 <= |input|
    requires Progress(input[start..], input[p0..], p0 - start, args0, flags0, cfg)
    requires !ReadArgOf(input[p0..]).soft
    requires args1 == args0 + SavedArgs(Classify(ReadArgOf(input[p0..]), cfg))
    requires flags1 == flags0 + SavedFlags(Classify(ReadArgOf(input[p0..]), cfg))
    requires p1 == p0 + FirstEnd(input[p0..]) + 1
    ensures LineLoop(input, start, p1, false, args1, flags1, cfg)
  {
    ProgressHard(input[start..], input[p0..], p0 - start, args0, flags0, cfg);
  }

  /** One turn of ReadLine's loop: the lists and the transcripts move on by
      the token saveArg read at `p0`, which left the reader at `p1`. */
  lemma LoopStep(input: seq<char>, start: nat, p0: nat, p1: nat, cfg: Config,
                 args0: seq<Option<string>>, flags0: seq<string>,
                 more: bool, args1: seq<Option<string>>, flags1: seq<string>,
                 raw0: string, raw1: string, echoed: string, echo0: string, echo1: string)
    requires LineLoop(input, start, p0, true, args0, flags0, cfg)
    requires more == ReadArgOf(input[p0..]).soft
    requires args1 == args0 + SavedArgs(Classify(ReadArgOf(input[p0..]), cfg))
    requires flags1 == flags0 + SavedFlags(Classify(ReadArgOf(input[p0..]), cfg))
    requires p1 == p0 + FirstEnd(input[p0..]) + 1
    requires raw0 == input[start..p0] && echo0 == echoed + raw0
    requires raw1 == raw0 + input[p0..p1] && echo1 == echo0 + input[p0..p1]
    ensures LineLoop(input, start, p1, more, args1, flags1, cfg)
    ensures raw1 == input[start..p1] && echo1 == echoed + raw1
  {
    ListsStep(input, start, p0, p1, cfg, args0, flags0, more, args1, flags1);
    TranscriptStep(input, start, p0, p1, raw0, raw1, echoed, echo0, echo1);
  }

  class CommanderCli {
    /** `ReadFlags`: turn `--name` tokens into flags (on by default). */
    var readFlags: bool
    /** `ParseUnescapedNullsAsNull`: turn an unquoted `null` token into a null argument. */
    var parseUnescapedNullsAsNull: bool
    /** The characters the reader yields, and how many it has yielded so far. */
    const input: seq<char>
    var pos: nat
    /** `LastCommandAsRaw`: every character read since the current line began. */
    var lastCommandAsRaw: string
    /** Every character written to each of the `Writers`, in order. */
    ghost var echoed: string

    ghost predicate Valid()
      reads this
    {
      pos <= |input|
    }

    /** A CLI reading from `reader`, with the default switches. */
    constructor (reader: seq<char>)
      ensures Valid() && input == reader && pos == 0
      ensures readFlags && !parseUnescapedNullsAsNull
      ensures lastCommandAsRaw == [] && echoed == []
    {
      input := reader;
      pos := 0;
      readFlags := true;
      parseUnescapedNullsAsNull := false;
      lastCommandAsRaw := [];
      echoed := [];
    }

    /** `Reader.Read()`: the next character as a number, or -1 once the input is
        exhausted (and then the position stays where it is). */
    method Read() returns (c: int)
      requires Valid()
      modifies this`pos
      ensures Valid()
      ensures old(pos) < |input| ==> c == input[old(pos)] as int && pos == old(pos) + 1
      ensures old(pos) == |input| ==> c == -1 && pos == old(pos)
    {
      if pos < |input| {
        c := input[pos] as int;
        pos := pos + 1;
      } else {
        c := -1;
      }
    }

    /** Reads one token. Returns whether it ended at a space (true) rather than
        a newline, its text, and whether a quote was toggled; every character
        consumed, the terminator included, goes to the raw buffer and the writers. */
    method ReadArg() returns (soft: bool, arg: string, stringReadingUsed: bool)
      requires Valid() && Terminated(input[pos..])
      modifies this`pos, this`lastCommandAsRaw, this`echoed
      ensures Valid()
      ensures Token(arg, soft, stringReadingUsed) == ReadArgOf(input[old(pos)..])
      ensures pos == old(pos) + FirstEnd(input[old(pos)..]) + 1
      ensures lastCommandAsRaw == old(lastCommandAsRaw) + input[old(pos)..pos]
      ensures echoed == old(echoed) + input[old(pos)..pos]
    {
      ghost var start := pos;
      ghost var s := input[pos..];
      ghost var e := FirstEnd(s);
      stringReadingUsed := false;
      var stringReading := false;
      var escapeEnabled := false;
      var thisArg := "";
      while true
        invariant start <= pos <= start + e < |input|
        invariant input[start..] == s
        invariant escapeEnabled == StateAt(s, pos - start).escape
        invariant stringReading == StateAt(s, pos - start).quoted
        invariant stringReadingUsed == Used(s, pos - start)
        invariant thisArg == TokenOf(s, pos - start)
        invariant lastCommandAsRaw == old(lastCommandAsRaw) + input[start..pos]
        invariant echoed == old(echoed) + input[start..pos]
        decreases start + e - pos
      {
        ghost var k := pos - start;
        var thisCharVal := Read();
        var thisChar := if thisCharVal == -1 then EofChar else thisCharVal as char;
        assert thisChar == s[k];

        // Writer output
        if thisCharVal != -1 {
          echoed := echoed + [thisChar];
          lastCommandAsRaw := lastCommandAsRaw + [thisChar];
        }
        assert input[start..pos] == input[start..pos - 1] + [thisChar];

        // Escaped characters are taken before any other rule
        if escapeEnabled {
          thisArg := thisArg + [thisChar];
          escapeEnabled := false;
          continue;
        }
        if thisChar == '\\' {
          escapeEnabled := true;
          continue;
        }

        // Quoted strings
        if thisChar == '"' {
          stringReading := !stringReading;
          stringReadingUsed := true;
          continue;
        }
        if stringReading {
          thisArg := thisArg + [thisChar];
          continue;
        }

        // Tab completion is not implemented: the tab is dropped
        if thisChar == '\t' {
          continue;
        }

        // Unescaped carriage returns are dropped
        if thisChar == '\r' {
          continue;
        }

        // The only exit: a space continues the line, a newline ends it
        if thisChar == ' ' || thisChar == '\n' {
          assert EndsAt(s, k);
          FirstEndIsFirst(s);
          assert k == e && s == input[old(pos)..];
          arg := thisArg;
          soft := thisChar == ' ';
          return;
        }

        thisArg := thisArg + [thisChar];
      }
    }

    /** The local function `saveArg`: reads one token and adds it to the
        argument list (as null or verbatim) or the flag list. */
    method SaveArg(argsList: seq<Option<string>>, flagsList: seq<string>)
      returns (more: bool, newArgs: seq<Option<string>>, newFlags: seq<string>)
      requires Valid() && Terminated(input[pos..])
      modifies this`pos, this`lastCommandAsRaw, this`echoed
      ensures Valid()
      ensures more == ReadArgOf(input[old(pos)..]).soft
      ensures newArgs == argsList + SavedArgs(Classify(ReadArgOf(input[old(pos)..]), Config(readFlags, parseUnescapedNullsAsNull)))
      ensures newFlags == flagsList + SavedFlags(Classify(ReadArgOf(input[old(pos)..]), Config(readFlags, parseUnescapedNullsAsNull)))
      ensures pos == old(pos) + FirstEnd(input[old(pos)..]) + 1
      ensures lastCommandAsRaw == old(lastCommandAsRaw) + input[old(pos)..pos]
      ensures echoed == old(echoed) + input[old(pos)..pos]
    {
      var exit, arg, stringReadingUsed := ReadArg();
      newArgs, newFlags := argsList, flagsList;
      more := exit;

      if parseUnescapedNullsAsNull && Lower(arg) == "null" && !stringReadingUsed {
        newArgs := newArgs + [None];
        return;
      }

      // A flag when it has the flag form and no quote was used
      if |arg| > 2 && arg[..2] == "--" && readFlags && !stringReadingUsed {
        newFlags := newFlags + [arg[2..]];
      } else {
        newArgs := newArgs + [Some(arg)];
      }
    }

    /** Reads tokens up to the first unescaped, unquoted newline. Returns false
        when the first argument is `exit`, with the arguments and the flags;
        the raw buffer then holds exactly the characters of this line. */
    method ReadLine() returns (cont: bool, args: seq<Option<string>>, flags: seq<string>)
      requires Valid() && HasHardEnd(input[pos..])
      modifies this`pos, this`lastCommandAsRaw, this`echoed
      ensures Valid()
      ensures Line(args, flags, cont) == ReadLineOf(input[old(pos)..], Config(old(readFlags), old(parseUnescapedNullsAsNull)))
      ensures pos == old(pos) + LineLength(input[old(pos)..])
      ensures lastCommandAsRaw == input[old(pos)..pos]
      ensures echoed == old(echoed) + lastCommandAsRaw
    {
      ghost var start := pos;
      ghost var cfg := Config(readFlags, parseUnescapedNullsAsNull);
      lastCommandAsRaw := [];
      var argsList: seq<Option<string>> := [];
      var flagsList: seq<string> := [];

      var more := true;
      ProgressStart(input[start..], cfg);
      while more
        invariant LineLoop(input, start, pos, more, argsList, flagsList, cfg)
        invariant lastCommandAsRaw == input[start..pos] && echoed == old(echoed) + lastCommandAsRaw
        decreases if more then |input| - pos + 1 else 0
      {
        ghost var p0 := pos;
        ghost var args0, flags0 := argsList, flagsList;
        ghost var echoed0, raw0 := echoed, lastCommandAsRaw;
        more, argsList, flagsList := SaveArg(argsList, flagsList);
        LoopStep(input, start, p0, pos, cfg, args0, flags0, more, argsList, flagsList,
                 raw0, lastCommandAsRaw, old(echoed), echoed0, echoed);
      }

      args := argsList;
      flags := flagsList;

      // False when the first argument is exit
      cont := |args| < 1 || args[0].None? || Lower(args[0].value) != "exit";
      FinishedLine(input[start..], pos - start, args, flags, cfg);
    }
  }
}
