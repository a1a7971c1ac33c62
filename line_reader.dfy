/** One command line: CommanderCLI.ReadLine calls ReadArg until a token ends
    at a newline, sorts each token into the argument or the flag list
    (saveArg), and decides whether the session goes on.

    `s` is the remaining input when ReadLine starts. After each token ends,
    ReadArg starts again from the start state on the rest of the input. */
module LineReader {
  import opened Ascii
  import opened ArgReader

  datatype Option<T> = None | Some(value: T)

  /** The two switches of CommanderCLI: `ReadFlags` and `ParseUnescapedNullsAsNull`. */
  datatype Config = Config(readFlags: bool, parseNulls: bool)

  /** Where saveArg puts one token: a null argument, a flag (named without
      its `--`), or a positional argument. */
  datatype Saved = NullArg | Flag(name: string) | Positional(text: string)

  /** What ReadLine hands back: `args`, `flags` and its boolean result. */
  datatype Line = Line(args: seq<Option<string>>, flags: seq<string>, cont: bool)

  /** `s[k]` is an unescaped, unquoted newline. */
  predicate HardEndAt(s: seq<char>, k: nat)
  {
    EndsAt(s, k) && s[k] == '\n'
  }

  /** ReadLine returns on `s`. */
  predicate HasHardEnd(s: seq<char>)
  {
    exists k :: 0 <= k < |s| && HardEndAt(s, k)
  }

  /** End of stream does not end a line either: after the input `s` the reader
      only yields EofChar, so ReadLine returns exactly when `s` itself holds an
      unescaped, unquoted newline. */
  lemma EofNoHardEnd(s: seq<char>, n: nat)
    ensures HasHardEnd(s + seq(n, _ => EofChar)) <==> HasHardEnd(s)
  {
    var pad := seq(n, _ => EofChar);
    var u := s + pad;
    if HasHardEnd(u) {
      var k :| 0 <= k < |u| && HardEndAt(u, k);
      if k < |s| {
        TracePrefix(s, pad, k);
        assert HardEndAt(s, k);
      } else {
        assert false;
      }
    }
    if HasHardEnd(s) {
      var k :| 0 <= k < |s| && HardEndAt(s, k);
      TracePrefix(s, pad, k);
      assert HardEndAt(u, k);
    }
  }

  /** After a token ends at `s[e]`, the next token sees the same flags as a
      single trace over the whole of `s` would: a terminator leaves the start
      state unchanged. */
  lemma {:induction false} ShiftAfterEnd(s: seq<char>, e: nat, k: nat)
    requires EndsAt(s, e) && k <= |s| - (e + 1)
    ensures StateAt(s[e + 1..], k) == StateAt(s, e + 1 + k)
    ensures k < |s| - (e + 1) ==> (EndsAt(s[e + 1..], k) <==> EndsAt(s, e + 1 + k))
  {
    if k > 0 {
      ShiftAfterEnd(s, e, k - 1);
      assert s[e + 1..][k - 1] == s[e + k];
    }
  }

  /** If the first token of a line ends at a space, the rest of the line still
      ends at a newline. */
  lemma RestHasHardEnd(s: seq<char>)
    requires HasHardEnd(s)
    requires s[FirstEnd(s)] == ' '
    ensures HasHardEnd(After(s))
  {
    var e := FirstEnd(s);
    var k :| 0 <= k < |s| && HardEndAt(s, k);
    FirstEndIsFirst(s);
    assert e < k;
    ShiftAfterEnd(s, e, k - (e + 1));
    assert HardEndAt(After(s), k - (e + 1));
  }

  /** Conversely, a newline that ends a token of the rest of the line ends a
      token of the whole line. */
  lemma HardEndFromRest(s: seq<char>)
    requires Terminated(s) && HasHardEnd(After(s))
    ensures HasHardEnd(s)
  {
    var e := FirstEnd(s);
    var j :| 0 <= j < |After(s)| && HardEndAt(After(s), j);
    ShiftHardEnd(s, e, j);
    assert HardEndAt(s, e + 1 + j);
  }

  /** The tokens ReadLine reads, in order. */
  function LineTokens(s: seq<char>): seq<Token>
    requires HasHardEnd(s)
    decreases |s|
  {
    var t := ReadArgOf(s);
    if !t.soft then [t]
    else
      RestHasHardEnd(s);
      [t] + LineTokens(After(s))
  }

  /** How many characters ReadLine consumes. */
  function LineLength(s: seq<char>): (n: nat)
    requires HasHardEnd(s)
    ensures FirstEnd(s) < n <= |s|
    decreases |s|
  {
    if !ReadArgOf(s).soft then FirstEnd(s) + 1
    else
      RestHasHardEnd(s);
      FirstEnd(s) + 1 + LineLength(After(s))
  }

  /** saveArg's rules, in their order: the null literal, then a flag, otherwise a positional argument. */
  function Classify(t: Token, cfg: Config): (x: Saved)
    ensures t.quoteUsed ==> x == Positional(t.text)
    ensures !cfg.readFlags && !cfg.parseNulls ==> x == Positional(t.text)
  {
    if cfg.parseNulls && Lower(t.text) == "null" && !t.quoteUsed then NullArg
    else if |t.text| > 2 && t.text[..2] == "--" && cfg.readFlags && !t.quoteUsed then Flag(t.text[2..])
    else Positional(t.text)
  }

  /** What saveArg adds to `argsList`. */
  function SavedArgs(x: Saved): seq<Option<string>>
  {
    match x
    case NullArg => [None]
    case Flag(_) => []
    case Positional(text) => [Some(text)]
  }

  /** What saveArg adds to `flagsList`. */
  function SavedFlags(x: Saved): seq<string>
  {
    match x
    case Flag(name) => [name]
    case _ => []
  }

  /** saveArg puts each token in exactly one list: a null as a null argument,
      a positional token verbatim as an argument, a flag by its name. */
  lemma SavedOnce(x: Saved)
    ensures |SavedArgs(x)| + |SavedFlags(x)| == 1
    ensures x.NullArg? ==> SavedArgs(x) == [None]
    ensures x.Positional? ==> SavedArgs(x) == [Some(x.text)]
    ensures x.Flag? ==> SavedFlags(x) == [x.name]
  {
  }

  /** The arguments of a sequence of tokens, in order. */
  function ArgsOf(ts: seq<Token>, cfg: Config): seq<Option<string>>
  {
    if ts == [] then [] else SavedArgs(Classify(ts[0], cfg)) + ArgsOf(ts[1..], cfg)
  }

  /** The flags of a sequence of tokens, in order. */
  function FlagsOf(ts: seq<Token>, cfg: Config): seq<string>
  {
    if ts == [] then [] else SavedFlags(Classify(ts[0], cfg)) + FlagsOf(ts[1..], cfg)
  }

  /** ReadLine's result: false only for a non-null first argument equal to `exit`. */
  function Continues(args: seq<Option<string>>): (c: bool)
    ensures !c ==> |args| > 0 && args[0].Some? && |args[0].value| == 4
  {
    |args| < 1 || args[0].None? || Lower(args[0].value) != "exit"
  }

  /** Both directions of the exit check: ReadLine returns false exactly when the
      first argument is present, not null, and is `exit` in any ASCII case. */
  lemma ContinuesIff(args: seq<Option<string>>)
    ensures !Continues(args) <==>
      |args| > 0 && args[0].Some? && |args[0].value| == 4 &&
      forall i :: 0 <= i < 4 ==> LowerChar(args[0].value[i]) == "exit"[i]
  {
    assert Lower("exit") == "exit";
    if |args| > 0 && args[0].Some? {
      SameLowerIff(args[0].value, "exit");
    }
  }

  /** What ReadLine returns when it starts on `s`. */
  function ReadLineOf(s: seq<char>, cfg: Config): (r: Line)
    requires HasHardEnd(s)
    ensures |r.args| + |r.flags| == |LineTokens(s)|
    ensures !r.cont ==> |r.args| > 0
  {
    var ts := LineTokens(s);
    var args := ArgsOf(ts, cfg);
    ArgsFlagsCount(ts, cfg);
    Line(args, FlagsOf(ts, cfg), Continues(args))
  }

  // ---------------------------------------------------------------------
  // One turn of ReadLine's loop

  /** A line whose first token ends at a space is that token followed by the
      line after it. */
  lemma SoftTokens(s: seq<char>)
    requires HasHardEnd(s) && ReadArgOf(s).soft
    ensures HasHardEnd(After(s))
    ensures LineTokens(s) == [ReadArgOf(s)] + LineTokens(After(s))
    ensures LineLength(s) == FirstEnd(s) + 1 + LineLength(After(s))
  {
    RestHasHardEnd(s);
  }

  /** The lists of a token sequence are those of its first token followed by
      those of the rest. */
  lemma ListsCons(t: Token, ts: seq<Token>, cfg: Config)
    ensures ArgsOf([t] + ts, cfg) == SavedArgs(Classify(t, cfg)) + ArgsOf(ts, cfg)
    ensures FlagsOf([t] + ts, cfg) == SavedFlags(Classify(t, cfg)) + FlagsOf(ts, cfg)
  {
    assert ([t] + ts)[0] == t && ([t] + ts)[1..] == ts;
  }

  /** ReadLine's loop state part way through the line `s`: the tokens of
      `s[..n]` are saved in `args` and `flags`, and `r` is the rest of the line. */
  ghost predicate Progress(s: seq<char>, r: seq<char>, n: nat, args: seq<Option<string>>, flags: seq<string>, cfg: Config)
  {
    HasHardEnd(s) && HasHardEnd(r) &&
    args + ArgsOf(LineTokens(r), cfg) == ArgsOf(LineTokens(s), cfg) &&
    flags + FlagsOf(LineTokens(r), cfg) == FlagsOf(LineTokens(s), cfg) &&
    n + LineLength(r) == LineLength(s)
  }

  /** ReadLine's loop state once the newline of `s` has been read. */
  ghost predicate Finished(s: seq<char>, n: nat, args: seq<Option<string>>, flags: seq<string>, cfg: Config)
  {
    HasHardEnd(s) &&
    args == ArgsOf(LineTokens(s), cfg) && flags == FlagsOf(LineTokens(s), cfg) && n == LineLength(s)
  }

  /** Before the first token, nothing is saved and the rest is the whole line. */
  lemma ProgressStart(s: seq<char>, cfg: Config)
    requires HasHardEnd(s)
    ensures Progress(s, s, 0, [], [], cfg)
  {
    assert [] + ArgsOf(LineTokens(s), cfg) == ArgsOf(LineTokens(s), cfg);
    assert [] + FlagsOf(LineTokens(s), cfg) == FlagsOf(LineTokens(s), cfg);
  }

  /** The arguments still to come after saving a first token that ended at a space. */
  lemma ArgsAfterSoft(r: seq<char>, args: seq<Option<string>>, cfg: Config)
    requires HasHardEnd(r) && ReadArgOf(r).soft
    ensures HasHardEnd(After(r))
    ensures args + ArgsOf(LineTokens(r), cfg)
         == (args + SavedArgs(Classify(ReadArgOf(r), cfg))) + ArgsOf(LineTokens(After(r)), cfg)
  {
    var t, r' := ReadArgOf(r), After(r);
    SoftTokens(r);
    ListsCons(t, LineTokens(r'), cfg);
    var a := SavedArgs(Classify(t, cfg));
    Assoc(args, a, ArgsOf(LineTokens(r'), cfg));
  }

  /** The flags still to come after saving a first token that ended at a space. */
  lemma FlagsAfterSoft(r: seq<char>, flags: seq<string>, cfg: Config)
    requires HasHardEnd(r) && ReadArgOf(r).soft
    ensures HasHardEnd(After(r))
    ensures flags + FlagsOf(LineTokens(r), cfg)
         == (flags + SavedFlags(Classify(ReadArgOf(r), cfg))) + FlagsOf(LineTokens(After(r)), cfg)
  {
    var t, r' := ReadArgOf(r), After(r);
    SoftTokens(r);
    ListsCons(t, LineTokens(r'), cfg);
    var f := SavedFlags(Classify(t, cfg));
    Assoc(flags, f, FlagsOf(LineTokens(r'), cfg));
  }

  /** Saving a first token that ended at a space leaves the loop part way
      through the line, with the rest just after that space. */
  lemma ProgressSoft(s: seq<char>, r: seq<char>, n: nat, args: seq<Option<string>>, flags: seq<string>, cfg: Config)
    requires Progress(s, r, n, args, flags, cfg)
    requires ReadArgOf(r).soft
    ensures Progress(s, After(r), n + FirstEnd(r) + 1,
                     args + SavedArgs(Classify(ReadArgOf(r), cfg)), flags + SavedFlags(Classify(ReadArgOf(r), cfg)), cfg)
  {
    SoftTokens(r);
    ArgsAfterSoft(r, args, cfg);
    FlagsAfterSoft(r, flags, cfg);
  }

  /** Saving a first token that ended at a newline finishes the line. */
  lemma ProgressHard(s: seq<char>, r: seq<char>, n: nat, args: seq<Option<string>>, flags: seq<string>, cfg: Config)
    requires Progress(s, r, n, args, flags, cfg)
    requires !ReadArgOf(r).soft
    ensures Finished(s, n + FirstEnd(r) + 1,
                     args + SavedArgs(Classify(ReadArgOf(r), cfg)), flags + SavedFlags(Classify(ReadArgOf(r), cfg)), cfg)
  {
    var t := ReadArgOf(r);
    assert LineTokens(r) == [t] + [];
    ListsCons(t, [], cfg);
  }

  /** Once the line is finished, the lists are those of ReadLineOf. */
  lemma FinishedLine(s: seq<char>, n: nat, args: seq<Option<string>>, flags: seq<string>, cfg: Config)
    requires Finished(s, n, args, flags, cfg)
    ensures ReadLineOf(s, cfg) == Line(args, flags, Continues(args))
    ensures n == LineLength(s)
  {
  }

  // ---------------------------------------------------------------------
  // What a line consists of

  /** A hard end after the first token is a hard end of the rest of the input. */
  lemma ShiftHardEnd(s: seq<char>, e: nat, j: nat)
    requires EndsAt(s, e) && j < |s| - (e + 1)
    ensures HardEndAt(s[e + 1..], j) <==> HardEndAt(s, e + 1 + j)
  {
    ShiftAfterEnd(s, e, j);
    assert s[e + 1..][j] == s[e + 1 + j];
  }

  /** ReadLine consumes its input up to and including an unescaped, unquoted newline. */
  lemma {:induction false} LineEndsAtNewline(s: seq<char>)
    requires HasHardEnd(s)
    ensures 0 < LineLength(s) <= |s|
    ensures HardEndAt(s, LineLength(s) - 1)
    decreases |s|
  {
    if ReadArgOf(s).soft {
      SoftTokens(s);
      var e, t := FirstEnd(s), After(s);
      LineEndsAtNewline(t);
      ShiftHardEnd(s, e, LineLength(t) - 1);
    }
  }

  /** ReadLine stops at the first unescaped, unquoted newline: none comes
      before the last character it consumes. */
  lemma {:induction false} LineStopsAtFirstNewline(s: seq<char>, k: nat)
    requires HasHardEnd(s)
    requires k < LineLength(s) - 1
    ensures !HardEndAt(s, k)
    decreases |s|
  {
    var e := FirstEnd(s);
    if k <= e {
      FirstEndIsFirst(s);
    } else {
      SoftTokens(s);
      var t := After(s);
      LineEndsAtNewline(t);
      LineStopsAtFirstNewline(t, k - (e + 1));
      ShiftHardEnd(s, e, k - (e + 1));
    }
  }

  /** The number of unescaped, unquoted spaces in `s[..n]`. */
  function SoftCount(s: seq<char>, n: nat): nat
    requires n <= |s|
  {
    if n == 0 then 0
    else SoftCount(s, n - 1) + (if EndsAt(s, n - 1) && s[n - 1] == ' ' then 1 else 0)
  }

  /** A stretch without token ends holds no soft boundary. */
  lemma {:induction false} SoftCountNone(s: seq<char>, n: nat)
    requires n <= |s|
    requires forall k :: 0 <= k < n ==> !EndsAt(s, k)
    ensures SoftCount(s, n) == 0
  {
    if n > 0 {
      SoftCountNone(s, n - 1);
    }
  }

  /** Soft boundaries after a token end are counted the same in the rest of the input. */
  lemma {:induction false} SoftCountShift(s: seq<char>, e: nat, j: nat)
    requires EndsAt(s, e) && j <= |s| - (e + 1)
    ensures SoftCount(s, e + 1 + j) == SoftCount(s, e + 1) + SoftCount(s[e + 1..], j)
  {
    if j > 0 {
      SoftCountShift(s, e, j - 1);
      ShiftAfterEnd(s, e, j - 1);
      assert s[e + 1..][j - 1] == s[e + j];
    }
  }

  /** Past a first token that ends at a space, the soft boundaries are that
      space and those of the rest of the input. */
  lemma SoftCountAfterSpace(s: seq<char>, j: nat)
    requires Terminated(s) && s[FirstEnd(s)] == ' ' && j <= |After(s)|
    ensures SoftCount(s, FirstEnd(s) + 1 + j) == 1 + SoftCount(After(s), j)
  {
    var e := FirstEnd(s);
    SoftCountFirstToken(s);
    assert SoftCount(s, e + 1) == 1;
    SoftCountShift(s, e, j);
  }

  /** No soft boundary comes before the end of the first token. */
  lemma SoftCountFirstToken(s: seq<char>)
    requires Terminated(s)
    ensures SoftCount(s, FirstEnd(s)) == 0
  {
    FirstEndIsFirst(s);
    SoftCountNone(s, FirstEnd(s));
  }

  /** Counting tokens, for a line whose first token ends at a space: one
      more token, and one more soft boundary, than in the rest of the line. */
  lemma TokenCountSoft(s: seq<char>)
    requires HasHardEnd(s) && ReadArgOf(s).soft
    requires HasHardEnd(After(s)) && 0 < LineLength(After(s)) <= |After(s)|
    requires |LineTokens(After(s))| == 1 + SoftCount(After(s), LineLength(After(s)) - 1)
    ensures 0 < LineLength(s) <= |s|
    ensures |LineTokens(s)| == 1 + SoftCount(s, LineLength(s) - 1)
  {
    SoftTokens(s);
    SoftCountAfterSpace(s, LineLength(After(s)) - 1);
  }

  /** Counting tokens, for a line whose first token ends at its newline. */
  lemma TokenCountHard(s: seq<char>)
    requires HasHardEnd(s) && !ReadArgOf(s).soft
    ensures 0 < LineLength(s) <= |s|
    ensures |LineTokens(s)| == 1 + SoftCount(s, LineLength(s) - 1)
  {
    SoftCountFirstToken(s);
  }

  /** The line holds one token per unescaped, unquoted space before its
      newline, plus one. */
  lemma {:induction false} TokenCount(s: seq<char>)
    requires HasHardEnd(s)
    ensures 0 < LineLength(s) <= |s|
    ensures |LineTokens(s)| == 1 + SoftCount(s, LineLength(s) - 1)
    decreases |s|
  {
    if ReadArgOf(s).soft {
      SoftTokens(s);
      TokenCount(After(s));
      TokenCountSoft(s);
    } else {
      TokenCountHard(s);
    }
  }

  /** Every token but the last ended at a space and the last at a newline. */
  lemma {:induction false} TokenBoundaries(s: seq<char>)
    requires HasHardEnd(s)
    ensures |LineTokens(s)| >= 1
    ensures !LineTokens(s)[|LineTokens(s)| - 1].soft
    ensures forall i :: 0 <= i < |LineTokens(s)| - 1 ==> LineTokens(s)[i].soft
    decreases |s|
  {
    if ReadArgOf(s).soft {
      SoftTokens(s);
      TokenBoundaries(After(s));
    }
  }

  // ---------------------------------------------------------------------
  // Sorting tokens into arguments and flags

  /** The null rule comes first and does not depend on `ReadFlags`; a token is
      a flag exactly when flags are read, no quote was used, and it is longer
      than two characters and starts with `--`; the flag name is the token
      without its `--` and is never empty; any other token is kept verbatim. */
  lemma ClassifyRules(t: Token, cfg: Config)
    ensures Classify(t, cfg) == NullArg <==> cfg.parseNulls && !t.quoteUsed && Lower(t.text) == "null"
    ensures Classify(t, cfg).Flag? <==> cfg.readFlags && !t.quoteUsed && |t.text| > 2 && t.text[..2] == "--"
    ensures Classify(t, cfg).Flag? ==> "--" + Classify(t, cfg).name == t.text && Classify(t, cfg).name != []
    ensures Classify(t, cfg).Positional? ==> Classify(t, cfg).text == t.text
  {
    if |t.text| > 2 && t.text[..2] == "--" {
      assert Lower(t.text)[0] == '-';
    }
  }

  /** saveArg adds each token to exactly one of the two lists. */
  lemma {:induction false} ArgsFlagsCount(ts: seq<Token>, cfg: Config)
    ensures |ArgsOf(ts, cfg)| + |FlagsOf(ts, cfg)| == |ts|
  {
    if ts != [] {
      ArgsFlagsCount(ts[1..], cfg);
    }
  }

  /** Both lists keep the order in which the tokens appeared. */
  lemma {:induction false} ArgsFlagsAppend(ts: seq<Token>, us: seq<Token>, cfg: Config)
    ensures ArgsOf(ts + us, cfg) == ArgsOf(ts, cfg) + ArgsOf(us, cfg)
    ensures FlagsOf(ts + us, cfg) == FlagsOf(ts, cfg) + FlagsOf(us, cfg)
  {
    if ts == [] {
      assert ts + us == us;
    } else {
      assert (ts + us)[0] == ts[0];
      assert (ts + us)[1..] == ts[1..] + us;
      ArgsFlagsAppend(ts[1..], us, cfg);
      var a, f := SavedArgs(Classify(ts[0], cfg)), SavedFlags(Classify(ts[0], cfg));
      assert ArgsOf(ts + us, cfg) == a + (ArgsOf(ts[1..], cfg) + ArgsOf(us, cfg));
      Assoc(a, ArgsOf(ts[1..], cfg), ArgsOf(us, cfg));
      assert FlagsOf(ts + us, cfg) == f + (FlagsOf(ts[1..], cfg) + FlagsOf(us, cfg));
      Assoc(f, FlagsOf(ts[1..], cfg), FlagsOf(us, cfg));
    }
  }

  /** No flag name is empty. */
  lemma {:induction false} FlagsNonEmpty(ts: seq<Token>, cfg: Config)
    ensures forall i :: 0 <= i < |FlagsOf(ts, cfg)| ==> |FlagsOf(ts, cfg)[i]| > 0
  {
    if ts != [] {
      FlagsNonEmpty(ts[1..], cfg);
    }
  }

  /** With both switches off, every token becomes an argument verbatim, empty ones included. */
  lemma {:induction false} PlainConfigKeepsTokens(ts: seq<Token>)
    ensures |ArgsOf(ts, Config(false, false))| == |ts|
    ensures forall i :: 0 <= i < |ts| ==> ArgsOf(ts, Config(false, false))[i] == Some(ts[i].text)
    ensures FlagsOf(ts, Config(false, false)) == []
  {
    if ts != [] {
      PlainConfigKeepsTokens(ts[1..]);
    }
  }

  // ---------------------------------------------------------------------
  // The exit sentinel

  /** `x` is a positional argument equal to `exit` up to ASCII case. */
  predicate IsExit(x: Saved)
  {
    x.Positional? && Lower(x.text) == "exit"
  }

  /** The tokens before `i` all became flags. */
  predicate FlagsBefore(ts: seq<Token>, i: nat, cfg: Config)
    requires i <= |ts|
  {
    forall j :: 0 <= j < i ==> Classify(ts[j], cfg).Flag?
  }

  /** A positional `exit` preceded only by flags stops the session. */
  lemma {:induction false} StopsAtExit(ts: seq<Token>, i: nat, cfg: Config)
    requires i < |ts| && IsExit(Classify(ts[i], cfg)) && FlagsBefore(ts, i, cfg)
    ensures !Continues(ArgsOf(ts, cfg))
  {
    if i > 0 {
      StopsAtExit(ts[1..], i - 1, cfg);
    }
  }

  /** A line that stops the session has a positional `exit` preceded only by flags. */
  lemma {:induction false} ExitOfStop(ts: seq<Token>, cfg: Config) returns (i: nat)
    requires !Continues(ArgsOf(ts, cfg))
    ensures i < |ts| && IsExit(Classify(ts[i], cfg)) && FlagsBefore(ts, i, cfg)
  {
    var x := Classify(ts[0], cfg);
    if x.Flag? {
      var k := ExitOfStop(ts[1..], cfg);
      i := k + 1;
      assert ts[i] == ts[1..][k];
    } else {
      i := 0;
    }
  }

  /** The line stops the session exactly when its first token that is not a
      flag is a positional `exit` (quoted or not); a null first argument and an
      `exit` among the flags do not stop it. */
  lemma StopsIff(ts: seq<Token>, cfg: Config)
    ensures !Continues(ArgsOf(ts, cfg)) <==>
      exists i :: 0 <= i < |ts| && IsExit(Classify(ts[i], cfg)) && FlagsBefore(ts, i, cfg)
  {
    if !Continues(ArgsOf(ts, cfg)) {
      var i := ExitOfStop(ts, cfg);
    }
    if exists i :: 0 <= i < |ts| && IsExit(Classify(ts[i], cfg)) && FlagsBefore(ts, i, cfg) {
      var i :| 0 <= i < |ts| && IsExit(Classify(ts[i], cfg)) && FlagsBefore(ts, i, cfg);
      StopsAtExit(ts, i, cfg);
    }
  }
}
