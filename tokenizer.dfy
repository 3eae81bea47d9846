/** The command-line tokenizer of `Heat.ParseCommand`, as a left fold of a
    step function over the characters of the line, and what it promises:
    tokens are non-empty, trimmed and free of quotes, quoted white space
    stays inside a token, and every other character survives in order. */
module Tokenizer {
  import opened Text

  /** A character that is neither white space nor a double quote: every such
      character of the line ends up in a token. */
  predicate IsSignificant(c: char) {
    c != '"' && !IsWhiteSpace(c)
  }

  /** The loop state: the tokens found so far, the pending buffer, and
      whether a quoted argument is open. */
  datatype ScanState = ScanState(tokens: seq<string>, buffer: string, quoted: bool)

  const Start: ScanState := ScanState([], "", false)

  /** Adds the trimmed buffer as a token unless it trims to nothing. */
  function Commit(tokens: seq<string>, buffer: string): (r: seq<string>)
    ensures tokens <= r && |r| <= |tokens| + 1
  {
    var arg := Trim(buffer);
    if arg != "" then tokens + [arg] else tokens
  }

  /** One character of the line: it either commits the buffer, emptying
      it, or leaves the tokens alone. */
  function Step(st: ScanState, c: char): (r: ScanState)
    ensures st.tokens <= r.tokens && |r.tokens| <= |st.tokens| + 1
    ensures r.buffer == [] || r.tokens == st.tokens
  {
    if c == '"' then
      if st.quoted then ScanState(Commit(st.tokens, st.buffer), "", false)
      else st.(quoted := true)
    else if IsWhiteSpace(c) && !st.quoted then
      ScanState(Commit(st.tokens, st.buffer), "", st.quoted)
    else
      st.(buffer := st.buffer + [c])
  }

  /** The state after the whole of `s`. */
  function Scan(s: string): ScanState {
    if s == [] then Start else Step(Scan(s[..|s| - 1]), s[|s| - 1])
  }

  /** End of input: a pending buffer is committed, even inside quotes. */
  function Finish(st: ScanState): (r: seq<string>)
    ensures st.tokens <= r && |r| <= |st.tokens| + 1
    ensures st.buffer == [] ==> r == st.tokens
  {
    if |st.buffer| > 0 then Commit(st.tokens, st.buffer) else st.tokens
  }

  /** The tokens of a line: the command name first, then the arguments. */
  function Tokens(s: string): seq<string> {
    Finish(Scan(s))
  }

  /** The significant characters of `s`, in order. */
  function Significant(s: string): string {
    if s == [] then []
    else Significant(s[..|s| - 1]) + (if IsSignificant(s[|s| - 1]) then [s[|s| - 1]] else [])
  }

  function Concat(ts: seq<string>): string {
    if ts == [] then [] else Concat(ts[..|ts| - 1]) + ts[|ts| - 1]
  }

  predicate WellFormedToken(t: string) {
    t != [] && IsTrimmed(t) && '"' !in t
  }

  // ---------------------------------------------------------------------
  // Unfolding helpers

  lemma ScanSnoc(p: string, c: char)
    ensures Scan(p + [c]) == Step(Scan(p), c)
  {
    assert (p + [c])[..|p|] == p;
  }

  /** Every token, and a pending buffer, takes at least one character of
      the line, so a line of n characters has at most n tokens. */
  lemma {:induction false} TokensBound(s: string)
    ensures |Scan(s).tokens| + (if Scan(s).buffer == [] then 0 else 1) <= |s|
    ensures |Tokens(s)| <= |s|
  {
    if s != [] {
      TokensBound(s[..|s| - 1]);
    }
  }

  lemma SignificantSnoc(p: string, c: char)
    ensures Significant(p + [c]) == Significant(p) + (if IsSignificant(c) then [c] else [])
  {
    assert (p + [c])[..|p|] == p;
  }

  lemma {:induction false} SignificantAppend(x: string, y: string)
    ensures Significant(x + y) == Significant(x) + Significant(y)
  {
    if y == [] {
      assert x + y == x;
    } else {
      var y' := y[..|y| - 1];
      assert x + y == (x + y') + [y[|y| - 1]];
      assert y == y' + [y[|y| - 1]];
      SignificantAppend(x, y');
      SignificantSnoc(x + y', y[|y| - 1]);
      SignificantSnoc(y', y[|y| - 1]);
    }
  }

  lemma {:induction false} SignificantOfWhite(s: string)
    requires forall k :: 0 <= k < |s| ==> IsWhiteSpace(s[k])
    ensures Significant(s) == []
  {
    if s != [] {
      SignificantOfWhite(s[..|s| - 1]);
    }
  }

  /** Trimming removes no significant character. */
  lemma SignificantTrim(b: string)
    ensures Significant(Trim(b)) == Significant(b)
  {
    var i, j := TrimIsInnerSlice(b);
    assert b == b[..i] + b[i..j] + b[j..];
    SignificantAppend(b[..i] + b[i..j], b[j..]);
    SignificantAppend(b[..i], b[i..j]);
    SignificantOfWhite(b[..i]);
    SignificantOfWhite(b[j..]);
  }

  lemma ConcatSnoc(ts: seq<string>, t: string)
    ensures Concat(ts + [t]) == Concat(ts) + t
  {
    assert (ts + [t])[..|ts|] == ts;
  }

  lemma CommitKeepsSignificant(ts: seq<string>, b: string)
    ensures Significant(Concat(Commit(ts, b))) == Significant(Concat(ts)) + Significant(b)
  {
    SignificantTrim(b);
    if Trim(b) != "" {
      ConcatSnoc(ts, Trim(b));
      SignificantAppend(Concat(ts), Trim(b));
    }
  }

  // ---------------------------------------------------------------------
  // What the tokenizer promises

  ghost predicate ScanInvariant(st: ScanState) {
    (forall t | t in st.tokens :: WellFormedToken(t)) && '"' !in st.buffer
  }

  lemma CommitWellFormed(ts: seq<string>, b: string)
    requires forall t | t in ts :: WellFormedToken(t)
    requires '"' !in b
    ensures forall t | t in Commit(ts, b) :: WellFormedToken(t)
  {
    TrimIsTrimmed(b);
    var i, j := TrimIsInnerSlice(b);
    assert '"' !in Trim(b) by {
      assert forall k :: 0 <= k < |Trim(b)| ==> Trim(b)[k] == b[i + k];
    }
  }

  lemma {:induction false} ScanKeepsInvariant(s: string)
    ensures ScanInvariant(Scan(s))
  {
    if s != [] {
      var p, c := s[..|s| - 1], s[|s| - 1];
      ScanKeepsInvariant(p);
      CommitWellFormed(Scan(p).tokens, Scan(p).buffer);
    }
  }

  /** Every token is non-empty, trimmed and contains no double quote. */
  lemma TokensWellFormed(s: string)
    ensures forall t | t in Tokens(s) :: WellFormedToken(t)
  {
    ScanKeepsInvariant(s);
    CommitWellFormed(Scan(s).tokens, Scan(s).buffer);
  }

  lemma StepKeepsSignificant(st: ScanState, c: char)
    ensures var st' := Step(st, c);
      Significant(Concat(st'.tokens)) + Significant(st'.buffer) ==
      Significant(Concat(st.tokens)) + Significant(st.buffer) + (if IsSignificant(c) then [c] else [])
  {
    var before := Significant(Concat(st.tokens)) + Significant(st.buffer);
    if c == '"' || (IsWhiteSpace(c) && !st.quoted) {
      assert before + (if IsSignificant(c) then [c] else []) == before;
      if c != '"' || st.quoted {
        var st' := ScanState(Commit(st.tokens, st.buffer), "", false);
        assert Significant(Concat(st'.tokens)) == before by {
          CommitKeepsSignificant(st.tokens, st.buffer);
        }
        assert Significant(st'.buffer) == [];
      }
    } else {
      assert Significant(st.buffer + [c]) ==
        Significant(st.buffer) + (if IsSignificant(c) then [c] else []) by {
        SignificantSnoc(st.buffer, c);
      }
    }
  }

  lemma {:induction false} ScanKeepsSignificant(s: string)
    ensures Significant(Concat(Scan(s).tokens)) + Significant(Scan(s).buffer) == Significant(s)
  {
    if s != [] {
      var p, c := s[..|s| - 1], s[|s| - 1];
      ScanKeepsSignificant(p);
      StepKeepsSignificant(Scan(p), c);
    }
  }

  /** Every significant character of the line appears in the tokens, in the
      original order, and nothing else significant does. */
  lemma TokensKeepSignificant(s: string)
    ensures Significant(Concat(Tokens(s))) == Significant(s)
  {
    ScanKeepsSignificant(s);
    CommitKeepsSignificant(Scan(s).tokens, Scan(s).buffer);
  }

  lemma {:induction false} ConcatOfWellFormedNotBlank(ts: seq<string>)
    requires ts != []
    requires forall t | t in ts :: WellFormedToken(t)
    ensures Significant(Concat(ts)) != []
  {
    var last := ts[|ts| - 1];
    assert last in ts;
    assert last == [last[0]] + last[1..];
    SignificantAppend([last[0]], last[1..]);
    SignificantSnoc([], last[0]);
    SignificantAppend(Concat(ts[..|ts| - 1]), last);
  }

  /** A line yields no token exactly when it has no significant character. */
  lemma NoTokensIffBlank(s: string)
    ensures Tokens(s) == [] <==> Significant(s) == []
  {
    TokensKeepSignificant(s);
    TokensWellFormed(s);
    if Tokens(s) != [] {
      ConcatOfWellFormedNotBlank(Tokens(s));
    }
  }

  /** Characters that cannot close a token go to the buffer unchanged:
      anything but a quote inside quotes, significant characters outside. */
  lemma {:induction false} ScanAppendsToBuffer(p: string, w: string)
    requires forall k :: 0 <= k < |w| ==> w[k] != '"' && (Scan(p).quoted || !IsWhiteSpace(w[k]))
    ensures Scan(p + w) == Scan(p).(buffer := Scan(p).buffer + w)
  {
    if w == [] {
      assert p + w == p;
    } else {
      var w', c := w[..|w| - 1], w[|w| - 1];
      var st := Scan(p);
      calc {
        Scan(p + w);
        { assert p + w == (p + w') + [c]; }
        Scan((p + w') + [c]);
        { ScanSnoc(p + w', c); }
        Step(Scan(p + w'), c);
        { ScanAppendsToBuffer(p, w'); }
        Step(st.(buffer := st.buffer + w'), c);
        st.(buffer := st.buffer + w' + [c]);
        { assert w == w' + [c]; }
        st.(buffer := st.buffer + w);
      }
    }
  }

  /** A quoted segment opened after a token boundary becomes exactly one
      token, the trimmed segment with its inner white space kept. */
  lemma QuotedSegmentIsOneToken(p: string, w: string)
    requires !Scan(p).quoted && Scan(p).buffer == ""
    requires '"' !in w
    ensures Scan(p + ['"'] + w + ['"']) == ScanState(Commit(Scan(p).tokens, w), "", false)
  {
    var st := Scan(p);
    var q := p + ['"'];
    ScanSnoc(p, '"');
    assert Scan(q) == ScanState(st.tokens, "", true);
    ScanAppendsToBuffer(q, w);
    assert "" + w == w;
    assert Scan(q + w) == ScanState(st.tokens, w, true);
    ScanSnoc(q + w, '"');
  }

  /** An opening quote does not end the pending buffer, and a quote left
      open at the end of the line still commits what follows it. */
  lemma UnterminatedQuoteCommits(p: string, w: string)
    requires !Scan(p).quoted
    requires '"' !in w
    ensures Tokens(p + ['"'] + w) == Commit(Scan(p).tokens, Scan(p).buffer + w)
  {
    var st := Scan(p);
    var q := p + ['"'];
    ScanSnoc(p, '"');
    assert Scan(q) == st.(quoted := true);
    ScanAppendsToBuffer(q, w);
    assert Scan(q + w) == ScanState(st.tokens, st.buffer + w, true);
    if st.buffer + w == "" {
      assert Trim("") == "";
    }
  }

  /** White space outside quotes ends the pending token. */
  lemma SpaceEndsToken(p: string, c: char)
    requires !Scan(p).quoted && IsWhiteSpace(c)
    ensures Scan(p + [c]) == ScanState(Commit(Scan(p).tokens, Scan(p).buffer), "", false)
  {
    ScanSnoc(p, c);
  }

  // ---------------------------------------------------------------------
  // Worked lines

  predicate IsWord(w: string) {
    w != [] && forall k :: 0 <= k < |w| ==> IsSignificant(w[k])
  }

  lemma WordIsTrimmed(w: string)
    requires IsWord(w)
    ensures Trim(w) == w
  {
    TrimOfTrimmed(w);
  }

  lemma ScanWord(w: string)
    requires forall k :: 0 <= k < |w| ==> IsSignificant(w[k])
    ensures Scan(w) == ScanState([], w, false)
  {
    ScanAppendsToBuffer([], w);
    assert [] + w == w;
  }

  /** A word followed by a space, read at a token boundary, becomes the
      next token. */
  lemma WordToken(p: string, ts: seq<string>, a: string)
    requires Scan(p) == ScanState(ts, "", false) && IsWord(a)
    ensures Scan(p + a) == ScanState(ts, a, false)
    ensures Scan(p + a + [' ']) == ScanState(ts + [a], "", false)
  {
    ScanAppendsToBuffer(p, a);
    assert "" + a == a;
    SpaceEndsToken(p + a, ' ');
    WordIsTrimmed(a);
  }

  /** The first word and space of a line become its first token. */
  lemma FirstWordToken(a: string)
    requires IsWord(a)
    ensures Scan(a + [' ']) == ScanState([a], "", false)
  {
    WordToken([], [], a);
    assert [] + a == a;
  }

  /** A word that ends the line, read at a token boundary, is the last
      token. */
  lemma LastWordToken(p: string, ts: seq<string>, c: string)
    requires Scan(p) == ScanState(ts, "", false) && IsWord(c)
    ensures Tokens(p + c) == ts + [c]
  {
    WordToken(p, ts, c);
    WordIsTrimmed(c);
  }

  /** `word "quoted text" ` leaves two tokens and a token boundary. */
  lemma QuotedArgumentPrefix(a: string, b: string)
    requires IsWord(a)
    requires '"' !in b && Trim(b) != ""
    ensures Scan(a + [' '] + ['"'] + b + ['"'] + [' ']) == ScanState([a, Trim(b)], "", false)
  {
    var q := a + [' '] + ['"'] + b + ['"'];
    assert Scan(q) == ScanState([a, Trim(b)], "", false) by {
      FirstWordToken(a);
      QuotedSegmentIsOneToken(a + [' '], b);
    }
    SpaceEndsToken(q, ' ');
    assert Trim("") == "";
  }

  /** `word "quoted text" word`: three tokens, the middle one the quoted
      text trimmed, with its inner white space kept. */
  lemma QuotedArgumentLine(a: string, b: string, c: string)
    requires IsWord(a) && IsWord(c)
    requires '"' !in b && Trim(b) != ""
    ensures Tokens(a + " \"" + b + "\" " + c) == [a, Trim(b), c]
  {
    var q := a + [' '] + ['"'] + b + ['"'] + [' '];
    assert Tokens(q + c) == [a, Trim(b), c] by {
      QuotedArgumentPrefix(a, b);
      LastWordToken(q, [a, Trim(b)], c);
    }
    assert a + " \"" + b + "\" " + c == q + c;
  }

  /** `say "hello world" there` gives `say`, `hello world` and `there`. */
  lemma QuotedArgumentExample(line: string)
    requires line == "say \"hello world\" there"
    ensures Tokens(line) == ["say", "hello world", "there"]
  {
    QuotedArgumentWords();
    assert line == "say" + " \"" + "hello world" + "\" " + "there";
    QuotedArgumentLine("say", "hello world", "there");
  }

  lemma QuotedArgumentWords()
    ensures IsWord("say") && IsWord("there")
    ensures '"' !in "hello world" && Trim("hello world") == "hello world"
  {
    TrimOfTrimmed("hello world");
  }

  /** `word word ` leaves two tokens and a token boundary. */
  lemma TwoWordsPrefix(a: string, b: string)
    requires IsWord(a) && IsWord(b)
    ensures Scan(a + [' '] + b + [' ']) == ScanState([a, b], "", false)
  {
    FirstWordToken(a);
    WordToken(a + [' '], [a], b);
  }

  /** A quote opened at a token boundary and never closed commits the rest
      of the line as one token. */
  lemma UnterminatedQuoteAtBoundary(q: string, ts: seq<string>, c: string)
    requires Scan(q) == ScanState(ts, "", false)
    requires '"' !in c
    ensures Tokens(q + ['"'] + c) == Commit(ts, c)
  {
    UnterminatedQuoteCommits(q, c);
    assert "" + c == c;
  }

  /** `word word "text`: the quote left open still commits its text. */
  lemma UnterminatedQuoteLine(a: string, b: string, c: string)
    requires IsWord(a) && IsWord(b)
    requires '"' !in c && Trim(c) != ""
    ensures Tokens(a + " " + b + " \"" + c) == [a, b, Trim(c)]
  {
    var q := a + [' '] + b + [' '];
    TwoWordsPrefix(a, b);
    UnterminatedQuoteAtBoundary(q, [a, b], c);
    assert a + " " + b + " \"" + c == q + ['"'] + c;
  }

  /** `say unterminated "oops` gives `say`, `unterminated` and `oops`. */
  lemma UnterminatedQuoteExample(line: string)
    requires line == "say unterminated \"oops"
    ensures Tokens(line) == ["say", "unterminated", "oops"]
  {
    UnterminatedQuoteWords();
    assert line == "say" + " " + "unterminated" + " \"" + "oops";
    UnterminatedQuoteLine("say", "unterminated", "oops");
  }

  lemma UnterminatedQuoteWords()
    ensures IsWord("say") && IsWord("unterminated")
    ensures '"' !in "oops" && Trim("oops") == "oops"
  {
    TrimOfTrimmed("oops");
  }

  /** `word"text"`: the opening quote does not end the word, so word and
      quoted text form one token. */
  lemma {:induction false} QuoteJoinsLine(a: string, b: string)
    requires IsWord(a)
    requires '"' !in b && IsTrimmed(b)
    ensures Tokens(a + "\"" + b + "\"") == [a + b]
  {
    ScanWord(a);
    ScanSnoc(a, '"');
    var p := a + ['"'];
    assert Scan(p) == ScanState([], a, true);
    ScanAppendsToBuffer(p, b);
    assert Scan(p + b) == ScanState([], a + b, true);
    ScanSnoc(p + b, '"');
    assert IsTrimmed(a + b) by {
      if b != [] {
        assert (a + b)[|a + b| - 1] == b[|b| - 1];
      }
    }
    TrimOfTrimmed(a + b);
    assert Trim("") == "";
    assert a + "\"" + b + "\"" == p + b + ['"'];
  }

  /** `ab"cd ef"` gives the single token `abcd ef`. */
  lemma QuoteDoesNotFlushExample(line: string)
    requires line == "ab\"cd ef\""
    ensures Tokens(line) == ["abcd ef"]
  {
    assert line == "ab" + "\"" + "cd ef" + "\"";
    QuoteJoinsLine("ab", "cd ef");
    assert "ab" + "cd ef" == "abcd ef";
  }
}
