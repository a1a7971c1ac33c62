/** The character-level state machine of CommanderCLI.ReadArg, stated as a
    trace over the characters one call consumes.

    `s` is always the remaining input at the moment ReadArg starts, and
    `StateAt(s, k)` is the pair of flags ReadArg holds just before it reads
    `s[k]`. Everything ReadArg computes is a function of that trace. */
module ArgReader {

  /** The flags ReadArg keeps between characters: `escapeEnabled` and `stringReading`. */
  datatype ArgState = ArgState(escape: bool, quoted: bool)

  /** The flags at the start of every token. */
  const Start := ArgState(false, false)

  /** The result of one ReadArg call: the token text, whether it ended at a
      space (soft boundary) rather than a newline, and whether a quote was toggled. */
  datatype Token = Token(text: string, soft: bool, quoteUsed: bool)

  /** The flags after reading `c` (for a character that does not end the token). */
  function Next(st: ArgState, c: char): (r: ArgState)
    ensures r.escape <==> !st.escape && c == '\\'
    ensures r.quoted != st.quoted <==> !st.escape && c == '"'
  {
    if st.escape then ArgState(false, st.quoted)
    else if c == '\\' then ArgState(true, st.quoted)
    else if c == '"' then ArgState(false, !st.quoted)
    else st
  }

  /** Reading `c` in state `st` appends `c` to the token. */
  predicate Appends(st: ArgState, c: char)
    ensures st.escape ==> Appends(st, c)
    ensures !st.escape && (c == '\\' || c == '"') ==> !Appends(st, c)
    ensures !st.escape && !st.quoted && (c == ' ' || c == '\n') ==> !Appends(st, c)
  {
    st.escape || (c != '\\' && c != '"' && (st.quoted || (c != '\t' && c != '\r' && c != ' ' && c != '\n')))
  }

  /** Reading `c` in state `st` toggles quote mode. */
  predicate Toggles(st: ArgState, c: char)
    ensures Toggles(st, c) ==> Next(st, c).quoted != st.quoted && !Appends(st, c)
  {
    !st.escape && c == '"'
  }

  /** Reading `c` in state `st` ends the token: an unescaped, unquoted space or newline. */
  predicate Ends(st: ArgState, c: char)
    ensures Ends(st, c) ==> st == Start && Next(st, c) == st && !Appends(st, c) && !Toggles(st, c)
  {
    !st.escape && !st.quoted && (c == ' ' || c == '\n')
  }

  /** The flags just before `s[k]` is read. */
  function StateAt(s: seq<char>, k: nat): ArgState
    requires k <= |s|
  {
    if k == 0 then Start else Next(StateAt(s, k - 1), s[k - 1])
  }

  /** The characters appended to the token while `s[..k]` is read. */
  function TokenOf(s: seq<char>, k: nat): (t: string)
    requires k <= |s|
    ensures |t| <= k
  {
    if k == 0 then []
    else TokenOf(s, k - 1) + (if Appends(StateAt(s, k - 1), s[k - 1]) then [s[k - 1]] else [])
  }

  /** Whether a quote was toggled while `s[..k]` is read (`stringReadingUsed`). */
  function Used(s: seq<char>, k: nat): bool
    requires k <= |s|
  {
    k > 0 && (Used(s, k - 1) || Toggles(StateAt(s, k - 1), s[k - 1]))
  }

  /** `s[k]` is an unescaped, unquoted space or newline. */
  predicate EndsAt(s: seq<char>, k: nat)
  {
    k < |s| && Ends(StateAt(s, k), s[k])
  }

  /** ReadArg returns on `s`: some character of `s` ends the token. */
  predicate Terminated(s: seq<char>)
  {
    exists k :: 0 <= k < |s| && EndsAt(s, k)
  }

  /** The first index at or after `from` that ends the token. */
  function FirstEndFrom(s: seq<char>, from: nat): (e: nat)
    requires from <= |s|
    requires exists k :: from <= k < |s| && EndsAt(s, k)
    ensures from <= e < |s| && EndsAt(s, e)
    decreases |s| - from
  {
    if EndsAt(s, from) then from else FirstEndFrom(s, from + 1)
  }

  /** The index of the character that ends the token: ReadArg consumes `s[..FirstEnd(s) + 1]`. */
  function FirstEnd(s: seq<char>): (e: nat)
    requires Terminated(s)
    ensures e < |s| && EndsAt(s, e)
  {
    FirstEndFrom(s, 0)
  }

  /** No index between `from` and FirstEndFrom(s, from) ends the token. */
  lemma {:induction false} FirstEndFromIsFirst(s: seq<char>, from: nat)
    requires from <= |s|
    requires exists k :: from <= k < |s| && EndsAt(s, k)
    ensures forall j :: from <= j < FirstEndFrom(s, from) ==> !EndsAt(s, j)
    decreases |s| - from
  {
    if !EndsAt(s, from) {
      FirstEndFromIsFirst(s, from + 1);
    }
  }

  /** FirstEnd is the first index that ends the token: ReadArg stops at the
      first unescaped, unquoted space or newline. */
  lemma FirstEndIsFirst(s: seq<char>)
    requires Terminated(s)
    ensures forall j :: 0 <= j < FirstEnd(s) ==> !EndsAt(s, j)
  {
    FirstEndFromIsFirst(s, 0);
  }

  /** The input left once ReadArg has consumed the token and its terminator. */
  function After(s: seq<char>): seq<char>
    requires Terminated(s)
  {
    s[FirstEnd(s) + 1..]
  }

  /** The rest after a token read from the middle of an input is a suffix of that input. */
  lemma AfterSuffix(input: seq<char>, p: nat)
    requires p <= |input| && Terminated(input[p..])
    ensures After(input[p..]) == input[p + FirstEnd(input[p..]) + 1..]
  {
  }

  /** What ReadArg returns when it starts on `s`. */
  function ReadArgOf(s: seq<char>): (t: Token)
    requires Terminated(s)
    ensures t.soft <==> s[FirstEnd(s)] == ' '
    ensures |t.text| <= FirstEnd(s)
  {
    var e := FirstEnd(s);
    Token(TokenOf(s, e), s[e] == ' ', Used(s, e))
  }

  /** ReadArg stops at the first unescaped, unquoted space or newline; it
      returns true exactly when that character is a space and false exactly
      when it is a newline; the terminator is consumed but adds nothing to the
      token, which never holds more characters than were read before it. */
  lemma ReadArgBoundary(s: seq<char>)
    requires Terminated(s)
    ensures var e := FirstEnd(s);
      && (forall j :: 0 <= j < e ==> !EndsAt(s, j))
      && (ReadArgOf(s).soft <==> s[e] == ' ')
      && (!ReadArgOf(s).soft <==> s[e] == '\n')
      && ReadArgOf(s).text == TokenOf(s, e + 1)
      && ReadArgOf(s).quoteUsed == Used(s, e + 1)
      && |ReadArgOf(s).text| <= e
  {
    FirstEndIsFirst(s);
  }

  /** Every character of the token is an input character that was read in a
      state that appends it: the token is `s[..k]` with the other positions
      filtered out. Returns the input position the `i`-th character came from. */
  lemma {:induction false} TokenCharSource(s: seq<char>, k: nat, i: nat) returns (j: nat)
    requires k <= |s| && i < |TokenOf(s, k)|
    ensures j < k && TokenOf(s, k)[i] == s[j] && Appends(StateAt(s, j), s[j])
  {
    var prev := TokenOf(s, k - 1);
    if i < |prev| {
      j := TokenCharSource(s, k - 1, i);
    } else {
      j := k - 1;
    }
  }

  /** The escape flag is set only right after a backslash. */
  lemma EscapeFollowsBackslash(s: seq<char>, k: nat)
    requires k <= |s|
    ensures StateAt(s, k).escape ==> k > 0 && s[k - 1] == '\\' && !StateAt(s, k - 1).escape
  {
  }

  /** `stringReadingUsed` is set exactly when some character read so far
      toggled quote mode. */
  lemma {:induction false} UsedIff(s: seq<char>, k: nat)
    requires k <= |s|
    ensures Used(s, k) <==> exists j :: 0 <= j < k && Toggles(StateAt(s, j), s[j])
  {
    if k > 0 {
      UsedIff(s, k - 1);
      if Used(s, k - 1) {
        var j :| 0 <= j < k - 1 && Toggles(StateAt(s, j), s[j]);
        assert 0 <= j < k;
      }
      if exists j :: 0 <= j < k && Toggles(StateAt(s, j), s[j]) {
        var j :| 0 <= j < k && Toggles(StateAt(s, j), s[j]);
        if j < k - 1 {
          assert Used(s, k - 1);
        }
      }
    }
  }

  /** An unescaped backslash is dropped and the character after it is appended
      whatever it is, inside or outside quotes; it never ends the token and
      never toggles quote mode. */
  lemma EscapeTakesNextLiterally(s: seq<char>, i: nat)
    requires i + 1 < |s|
    requires !StateAt(s, i).escape && s[i] == '\\'
    ensures !EndsAt(s, i) && !EndsAt(s, i + 1)
    ensures TokenOf(s, i + 2) == TokenOf(s, i) + [s[i + 1]]
    ensures StateAt(s, i + 2) == ArgState(false, StateAt(s, i).quoted)
    ensures Used(s, i + 2) == Used(s, i)
  {
  }

  /** An unescaped quote flips quote mode, records that quotes were used, is
      not appended and does not end the token. */
  lemma QuoteToggles(s: seq<char>, i: nat)
    requires i < |s|
    requires !StateAt(s, i).escape && s[i] == '"'
    ensures !EndsAt(s, i)
    ensures TokenOf(s, i + 1) == TokenOf(s, i)
    ensures StateAt(s, i + 1) == ArgState(false, !StateAt(s, i).quoted)
    ensures Used(s, i + 1)
  {
  }

  /** Inside quotes every character other than a backslash or a quote is
      appended, spaces, newlines, tabs and carriage returns included, and none
      of them ends the token. */
  lemma {:induction false} QuotedRun(s: seq<char>, i: nat, j: nat)
    requires i <= j <= |s|
    requires StateAt(s, i) == ArgState(false, true)
    requires forall k :: i <= k < j ==> s[k] != '\\' && s[k] != '"'
    ensures StateAt(s, j) == ArgState(false, true)
    ensures TokenOf(s, j) == TokenOf(s, i) + s[i..j]
    ensures Used(s, j) == Used(s, i)
    ensures forall k :: i <= k < j ==> !EndsAt(s, k)
    decreases j - i
  {
    if i < j {
      assert !EndsAt(s, i);
      assert StateAt(s, i + 1) == ArgState(false, true);
      assert TokenOf(s, i + 1) == TokenOf(s, i) + [s[i]];
      QuotedRun(s, i + 1, j);
      assert s[i..j] == [s[i]] + s[i + 1..j];
      Assoc(TokenOf(s, i), [s[i]], s[i + 1..j]);
    }
  }

  /** The text with tabs and carriage returns removed. */
  function StripTabsAndReturns(t: string): string
  {
    if t == [] then []
    else if t[|t| - 1] == '\t' || t[|t| - 1] == '\r' then StripTabsAndReturns(t[..|t| - 1])
    else StripTabsAndReturns(t[..|t| - 1]) + [t[|t| - 1]]
  }

  /** Concatenation is associative (stated once, away from the trace functions). */
  lemma Assoc<T>(a: seq<T>, b: seq<T>, c: seq<T>)
    ensures a + (b + c) == (a + b) + c
  {
  }

  /** Outside quotes and escapes, a run without backslashes, quotes, spaces and
      newlines is appended unchanged except that tabs and carriage returns are
      dropped, and the state stays at the start state. */
  lemma {:induction false} UnquotedRun(s: seq<char>, i: nat, j: nat)
    requires i <= j <= |s|
    requires StateAt(s, i) == Start
    requires forall k :: i <= k < j ==> s[k] != '\\' && s[k] != '"' && s[k] != ' ' && s[k] != '\n'
    ensures StateAt(s, j) == Start
    ensures TokenOf(s, j) == TokenOf(s, i) + StripTabsAndReturns(s[i..j])
    ensures Used(s, j) == Used(s, i)
    decreases j - i
  {
    if i < j {
      UnquotedRun(s, i, j - 1);
      var c := s[j - 1];
      var x: string := if c == '\t' || c == '\r' then [] else [c];
      assert s[i..j][..j - 1 - i] == s[i..j - 1];
      assert StripTabsAndReturns(s[i..j]) == StripTabsAndReturns(s[i..j - 1]) + x;
      assert TokenOf(s, j) == TokenOf(s, j - 1) + x;
      Assoc(TokenOf(s, i), StripTabsAndReturns(s[i..j - 1]), x);
    }
  }

  /** Nothing in such a run ends the token. */
  lemma UnquotedRunContinues(s: seq<char>, i: nat, j: nat, k: nat)
    requires i <= k < j <= |s|
    requires StateAt(s, i) == Start
    requires forall k :: i <= k < j ==> s[k] != '\\' && s[k] != '"' && s[k] != ' ' && s[k] != '\n'
    ensures !EndsAt(s, k)
  {
    UnquotedRun(s, i, k);
  }

  /** The trace of a prefix does not depend on what follows it. */
  lemma {:induction false} TracePrefix(s: seq<char>, t: seq<char>, k: nat)
    requires k <= |s|
    ensures StateAt(s + t, k) == StateAt(s, k)
    ensures TokenOf(s + t, k) == TokenOf(s, k)
    ensures Used(s + t, k) == Used(s, k)
  {
    if k > 0 {
      TracePrefix(s, t, k - 1);
    }
  }

  /** What the reader yields once it is exhausted: Read() returns -1, which the
      cast `(char) -1` turns into U+FFFF. */
  const EofChar: char := '\U{FFFF}'

  /** A word without backslashes, quotes, spaces and newlines, followed by a
      space or a newline, is read as one token: the word less its tabs and
      carriage returns, with no quote used, ending softly exactly at a space. */
  lemma PlainWord(s: seq<char>, e: nat)
    requires e < |s| && (s[e] == ' ' || s[e] == '\n')
    requires forall k :: 0 <= k < e ==> s[k] != '\\' && s[k] != '"' && s[k] != ' ' && s[k] != '\n'
    ensures Terminated(s) && FirstEnd(s) == e
    ensures ReadArgOf(s) == Token(StripTabsAndReturns(s[..e]), s[e] == ' ', false)
  {
    UnquotedRun(s, 0, e);
    assert s[0..e] == s[..e];
    assert EndsAt(s, e);
    FirstEndIsFirst(s);
    if FirstEnd(s) < e {
      UnquotedRunContinues(s, 0, e, FirstEnd(s));
    }
  }

  /** A word in quotes, without backslashes or quotes inside, followed by a
      space or a newline, is read as one token: the word between the quotes,
      with a quote used, ending softly exactly at a space. */
  lemma QuotedWord(s: seq<char>, e: nat)
    requires 2 <= e < |s| && s[0] == '"' && s[e - 1] == '"' && (s[e] == ' ' || s[e] == '\n')
    requires forall k :: 1 <= k < e - 1 ==> s[k] != '\\' && s[k] != '"'
    ensures Terminated(s) && FirstEnd(s) == e
    ensures ReadArgOf(s) == Token(s[1..e - 1], s[e] == ' ', true)
  {
    QuotedTrace(s, e);
    assert EndsAt(s, e);
    FirstEndIsFirst(s);
  }

  /** The same, stated for the word itself: `"w"` followed by the terminator
      `t` and any rest is read as the token `w`, and ReadArg leaves `rest`. */
  lemma QuotedToken(w: string, t: char, rest: seq<char>)
    requires t == ' ' || t == '\n'
    requires forall k :: 0 <= k < |w| ==> w[k] != '\\' && w[k] != '"'
    ensures Terminated(['"'] + w + ['"', t] + rest)
    ensures FirstEnd(['"'] + w + ['"', t] + rest) == |w| + 2
    ensures ReadArgOf(['"'] + w + ['"', t] + rest) == Token(w, t == ' ', true)
    ensures After(['"'] + w + ['"', t] + rest) == rest
  {
    var s := ['"'] + w + ['"', t] + rest;
    var e := |w| + 2;
    assert s[0] == '"' && s[e - 1] == '"' && s[e] == t;
    forall k | 1 <= k < e - 1
      ensures s[k] != '\\' && s[k] != '"'
    {
      assert s[k] == w[k - 1];
    }
    QuotedWord(s, e);
    assert s[1..e - 1] == w;
    assert s[e + 1..] == rest;
  }

  /** The trace of such a quoted word: back at the start state, with the
      word between the quotes as the token and no end before `e`. */
  lemma QuotedTrace(s: seq<char>, e: nat)
    requires 2 <= e < |s| && s[0] == '"' && s[e - 1] == '"'
    requires forall k :: 1 <= k < e - 1 ==> s[k] != '\\' && s[k] != '"'
    ensures StateAt(s, e) == Start && TokenOf(s, e) == s[1..e - 1] && Used(s, e)
    ensures forall j :: 0 <= j < e ==> !EndsAt(s, j)
  {
    QuoteToggles(s, 0);
    QuotedRun(s, 1, e - 1);
    QuoteToggles(s, e - 1);
    forall j | 0 <= j < e
      ensures !EndsAt(s, j)
    {
      if 0 < j < e - 1 {
        assert 1 <= j < e - 1;
      }
    }
  }

  /** Such a word without tabs and carriage returns is the token itself. */
  lemma PlainWordKept(s: seq<char>, e: nat)
    requires e < |s| && (s[e] == ' ' || s[e] == '\n')
    requires forall k :: 0 <= k < e ==> s[k] != '\\' && s[k] != '"' && s[k] != ' ' && s[k] != '\n' && s[k] != '\t' && s[k] != '\r'
    ensures Terminated(s) && FirstEnd(s) == e
    ensures ReadArgOf(s) == Token(s[..e], s[e] == ' ', false)
  {
    PlainWord(s, e);
    NoTabsKept(s[..e]);
  }

  /** A word without tabs and carriage returns is kept as it is. */
  lemma {:induction false} NoTabsKept(t: string)
    requires forall k :: 0 <= k < |t| ==> t[k] != '\t' && t[k] != '\r'
    ensures StripTabsAndReturns(t) == t
  {
    if t != [] {
      NoTabsKept(t[..|t| - 1]);
    }
  }

  /** End of stream is not a terminator: after the input `s`, the reader only
      yields EofChar, so ReadArg returns exactly when `s` itself holds the end
      of the token, and otherwise loops forever. */
  lemma EofNeverEnds(s: seq<char>, n: nat)
    ensures Terminated(s + seq(n, _ => EofChar)) <==> Terminated(s)
  {
    var u := s + seq(n, _ => EofChar);
    if Terminated(u) {
      var k :| 0 <= k < |u| && EndsAt(u, k);
      if k < |s| {
        TracePrefix(s, seq(n, _ => EofChar), k);
        assert EndsAt(s, k);
      } else {
        assert false;
      }
    }
    if Terminated(s) {
      var k :| 0 <= k < |s| && EndsAt(s, k);
      TracePrefix(s, seq(n, _ => EofChar), k);
      assert EndsAt(u, k);
    }
  }
}
