/** The shell's tokenizer (kernel/src/shell/parser.rs). */
module Tokenizer {
  import opened FsTypes

  predicate IsSpace(c: char) {
    c == ' ' || c == '\t'
  }

  // ---------------------------------------------------------------------
  // The two-state lexer
  // ---------------------------------------------------------------------

  /** A pending word, if there is anything in it. */
  function Emit(word: string): seq<string> {
    if word == "" then [] else [word]
  }

  /** The tokens of `s`, read one character at a time: `quoted` tells whether a
      string is open, `word` is what was read of the current token. */
  function Lex(s: string, quoted: bool, word: string): seq<string>
    decreases |s|
  {
    if s == "" then Emit(word)
    else
      var c, rest := s[0], s[1..];
      if quoted then
        if c == '"' then [word] + Lex(rest, false, "") else Lex(rest, true, word + [c])
      else if c == '"' then Emit(word) + Lex(rest, true, "")
      else if IsSpace(c) then Emit(word) + Lex(rest, false, "")
      else Lex(rest, false, word + [c])
  }

  function Tokens(s: string): seq<string> {
    Lex(s, false, "")
  }

  // ---------------------------------------------------------------------
  // The scanner
  // ---------------------------------------------------------------------

  /** A token is a slice of the input. */
  datatype Slice = Slice(start: nat, end: nat)

  class Parser {
    const input: string
    var position: nat

    ghost predicate Valid()
      reads this
    {
      position <= |input|
    }

    /** The kernel asserts that the input is ASCII. */
    constructor (input: string)
      requires IsAscii(input)
      ensures Valid() && this.input == input && position == 0
    {
      this.input := input;
      position := 0;
    }

    /** The next token: a slice past everything consumed before, which is the
        first token the lexer finds in the rest of the input. None means that no
        token is left, and stays so. */
    method Next() returns (r: Option<Slice>)
      requires Valid()
      modifies this`position
      ensures Valid()
      ensures r.Some? ==>
                && old(position) <= r.value.start <= r.value.end <= position
                && old(position) < position
                && Tokens(input[old(position)..]) == [input[r.value.start..r.value.end]] + Tokens(input[position..])
      ensures r.None? ==> Tokens(input[old(position)..]) == [] && position == |input|
    {
      ghost var all := Tokens(input[position..]);
      var start, parsingString := position, false;
      assert input[start..position] == "";
      while position < |input|
        invariant old(position) <= start <= position <= |input|
        invariant parsingString ==> old(position) < start
        invariant all == Lex(input[position..], parsingString, input[start..position])
      {
        var c := input[position];
        assert input[position..][0] == c && input[position..][1..] == input[position + 1..];
        if c == '"' {
          if !parsingString {
            if position > start {
              QuoteRestarts(input[position..]);
              return Some(Slice(start, position));
            }
            start := start + 1;
            parsingString := true;
            position := position + 1;
            assert input[start..position] == "";
          } else {
            r := Some(Slice(start, position));
            position := position + 1;
            return;
          }
        } else if IsSpace(c) && !parsingString {
          var end := position;
          position := position + 1;
          if end > start {
            return Some(Slice(start, end));
          }
          start := position;
          assert input[start..position] == "";
        } else {
          assert input[start..position + 1] == input[start..position] + [c];
          position := position + 1;
        }
      }
      assert input[position..] == "";
      if position > start {
        r := Some(Slice(start, position));
      } else {
        r := None;
      }
    }
  }

  /** Stopping right before a quote leaves it to open the next token. */
  lemma QuoteRestarts(s: string)
    requires s != "" && s[0] == '"'
    ensures Lex(s, false, "") == Lex(s[1..], true, "")
    ensures forall word :: word != "" ==> Lex(s, false, word) == [word] + Lex(s, false, "")
  {
    assert [] + Lex(s[1..], true, "") == Lex(s[1..], true, "");
  }

  /** All tokens of an input, as the shell collects them. */
  method Tokenize(input: string) returns (tokens: seq<string>)
    requires IsAscii(input)
    ensures tokens == Tokens(input)
  {
    var parser := new Parser(input);
    tokens := [];
    assert input[0..] == input;
    while true
      invariant parser.Valid() && parser.input == input
      invariant tokens + Tokens(input[parser.position..]) == Tokens(input)
      decreases |input| - parser.position
    {
      var token := parser.Next();
      if token.None? {
        return;
      }
      var text := input[token.value.start..token.value.end];
      assert tokens + ([text] + Tokens(input[parser.position..])) == (tokens + [text]) + Tokens(input[parser.position..]);
      tokens := tokens + [text];
    }
  }

  // ---------------------------------------------------------------------
  // Nothing is lost: tokens are the input minus quotes and unquoted space
  // ---------------------------------------------------------------------

  function Concat(tokens: seq<string>): string {
    if tokens == [] then "" else tokens[0] + Concat(tokens[1..])
  }

  function Strip(s: string, quoted: bool): string
    decreases |s|
  {
    if s == "" then ""
    else if s[0] == '"' then Strip(s[1..], !quoted)
    else if (s[0] == ' ' || s[0] == '\t') && !quoted then Strip(s[1..], false)
    else [s[0]] + Strip(s[1..], quoted)
  }

  lemma {:induction false} ConcatAppend(a: seq<string>, b: seq<string>)
    ensures Concat(a + b) == Concat(a) + Concat(b)
  {
    if a == [] {
      assert a + b == b;
    } else {
      assert (a + b)[0] == a[0] && (a + b)[1..] == a[1..] + b;
      ConcatAppend(a[1..], b);
    }
  }

  lemma Regroup(a: string, b: string, c: string)
    ensures (a + b) + c == a + (b + c)
  {
  }

  lemma ConcatEmit(word: string)
    ensures Concat([word]) == word && Concat(Emit(word)) == word
  {
    assert [word][1..] == [];
    assert word + "" == word;
  }

  lemma {:induction false} LexStrips(s: string, quoted: bool, word: string)
    ensures Concat(Lex(s, quoted, word)) == word + Strip(s, quoted)
    decreases |s|
  {
    hide Concat;
    ConcatEmit(word);
    if s == "" {
      assert word + "" == word;
    } else if quoted {
      if s[0] == '"' {
        LexStrips(s[1..], false, "");
        ConcatAppend([word], Lex(s[1..], false, ""));
      } else {
        LexStrips(s[1..], true, word + [s[0]]);
        Regroup(word, [s[0]], Strip(s[1..], true));
      }
    } else if s[0] == '"' || IsSpace(s[0]) {
      LexStrips(s[1..], s[0] == '"', "");
      ConcatAppend(Emit(word), Lex(s[1..], s[0] == '"', ""));
    } else {
      LexStrips(s[1..], false, word + [s[0]]);
      Regroup(word, [s[0]], Strip(s[1..], false));
    }
  }

  /** The tokens, put together, are the input without quotes and unquoted space. */
  lemma TokensLoseNothing(s: string)
    ensures Concat(Tokens(s)) == Strip(s, false)
  {
    LexStrips(s, false, "");
  }

  // ---------------------------------------------------------------------
  // Concatenation
  // ---------------------------------------------------------------------

  /** Whether a string is open after `s`. */
  function OpenAfter(s: string, quoted: bool): bool
    decreases |s|
  {
    if s == "" then quoted else OpenAfter(s[1..], if s[0] == '"' then !quoted else quoted)
  }

  predicate Balanced(s: string) {
    !OpenAfter(s, false)
  }

  /** Outside of strings, spaces, tabs and quotes end a token. */
  lemma {:induction false} LexSplits(a: string, sep: char, b: string, quoted: bool, word: string)
    requires !OpenAfter(a, quoted) && (sep == ' ' || sep == '\t' || sep == '"')
    ensures Lex(a + [sep] + b, quoted, word) == Lex(a, quoted, word) + Lex(b, sep == '"', "")
    decreases |a|
  {
    var s, rest := a + [sep] + b, Lex(b, sep == '"', "");
    if a == "" {
      assert s[0] == sep && s[1..] == b;
    } else {
      assert s[0] == a[0] && s[1..] == a[1..] + [sep] + b;
      if quoted {
        if a[0] == '"' {
          LexSplits(a[1..], sep, b, false, "");
          assert [word] + (Lex(a[1..], false, "") + rest) == [word] + Lex(a[1..], false, "") + rest;
        } else {
          LexSplits(a[1..], sep, b, true, word + [a[0]]);
        }
      } else if a[0] == '"' || IsSpace(a[0]) {
        var q := a[0] == '"';
        LexSplits(a[1..], sep, b, q, "");
        assert Emit(word) + (Lex(a[1..], q, "") + rest) == Emit(word) + Lex(a[1..], q, "") + rest;
      } else {
        LexSplits(a[1..], sep, b, false, word + [a[0]]);
      }
    }
  }

  lemma {:induction false} StripAppend(a: string, b: string, quoted: bool)
    ensures Strip(a + b, quoted) == Strip(a, quoted) + Strip(b, OpenAfter(a, quoted))
    decreases |a|
  {
    if a == "" {
      assert a + b == b;
    } else {
      assert (a + b)[0] == a[0] && (a + b)[1..] == a[1..] + b;
      StripAppend(a[1..], b, if a[0] == '"' then !quoted else quoted);
    }
  }

  /** Tokenizing two inputs joined by a space or a tab gives both token lists in a
      row, for every second input, exactly when the first one's quotes are balanced. */
  lemma TokensOfJoin(a: string, sep: char)
    requires sep == ' ' || sep == '\t'
    ensures Balanced(a) <==> forall b :: Tokens(a + [sep] + b) == Tokens(a) + Tokens(b)
  {
    if Balanced(a) {
      forall b ensures Tokens(a + [sep] + b) == Tokens(a) + Tokens(b) {
        LexSplits(a, sep, b, false, "");
      }
    } else {
      // within an open string the space is kept
      var s := a + [sep] + "x";
      assert s == a + ([sep] + "x");
      TokensLoseNothing(s);
      TokensLoseNothing(a);
      StripAppend(a, [sep] + "x", false);
      assert ([sep] + "x")[1..] == "x" && "x"[1..] == "";
      assert |Strip([sep] + "x", true)| == 2;
      ConcatAppend(Tokens(a), Tokens("x"));
      TokensLoseNothing("x");
      assert |Strip("x", false)| == 1;
      assert Tokens(a + [sep] + "x") != Tokens(a) + Tokens("x");
    }
  }

  lemma {:induction false} LexOpen(s: string, word: string)
    requires '"' !in s
    ensures Lex(s, true, word) == if word + s == "" then [] else [word + s]
    decreases |s|
  {
    if s == "" {
      assert word + "" == word;
    } else {
      LexOpen(s[1..], word + [s[0]]);
      assert (word + [s[0]]) + s[1..] == word + s;
    }
  }

  /** A quote that is never closed makes the rest one token, or none if nothing follows. */
  lemma UnclosedQuote(a: string, s: string)
    requires Balanced(a) && '"' !in s
    ensures Tokens(a + "\"" + s) == Tokens(a) + if s == "" then [] else [s]
  {
    LexSplits(a, '"', s, false, "");
    LexOpen(s, "");
    assert "" + s == s;
  }

  lemma {:induction false} LexToQuote(s: string, b: string, word: string)
    requires '"' !in s
    ensures Lex(s + "\"" + b, true, word) == [word + s] + Tokens(b)
    decreases |s|
  {
    var all := s + "\"" + b;
    if s == "" {
      assert all[0] == '"' && all[1..] == b && word + "" == word;
    } else {
      assert all[0] == s[0] && all[1..] == s[1..] + "\"" + b;
      LexToQuote(s[1..], b, word + [s[0]]);
      assert (word + [s[0]]) + s[1..] == word + s;
    }
  }

  /** A string is a token of its own, whatever touches its quotes. */
  lemma StringIsOneToken(a: string, s: string, b: string)
    requires Balanced(a) && '"' !in s
    ensures Tokens(a + "\"" + (s + "\"" + b)) == Tokens(a) + ([s] + Tokens(b))
  {
    LexSplits(a, '"', s + "\"" + b, false, "");
    LexToQuote(s, b, "");
    assert "" + s == s;
  }

  /** Spaces, tabs and a lone quote are no tokens; any other character is one. */
  lemma OneCharacter(c: char)
    ensures Tokens([c]) == if c == ' ' || c == '\t' || c == '"' then [] else [[c]]
  {
    if c == ' ' || c == '\t' || c == '"' {
      LexSplits("", c, "", false, "");
      assert "" + [c] + "" == [c];
    } else {
      LexWord([c], "");
      assert "" + [c] == [c];
    }
  }

  // ---------------------------------------------------------------------
  // Round trip
  // ---------------------------------------------------------------------

  predicate NeedsQuotes(arg: string) {
    arg == "" || exists i :: 0 <= i < |arg| && IsSpace(arg[i])
  }

  function Quote(arg: string): string {
    if NeedsQuotes(arg) then "\"" + arg + "\"" else arg
  }

  /** Arguments spelled out on a command line. */
  function Print(args: seq<string>): string {
    if args == [] then ""
    else if |args| == 1 then Quote(args[0])
    else Quote(args[0]) + " " + Print(args[1..])
  }

  lemma {:induction false} LexWord(arg: string, word: string)
    requires '"' !in arg && forall i :: 0 <= i < |arg| ==> !IsSpace(arg[i])
    ensures Lex(arg, false, word) == Emit(word + arg)
    ensures !OpenAfter(arg, false)
    decreases |arg|
  {
    if arg == "" {
      assert word + "" == word;
    } else {
      LexWord(arg[1..], word + [arg[0]]);
      assert (word + [arg[0]]) + arg[1..] == word + arg;
    }
  }

  lemma {:induction false} LexString(arg: string, word: string)
    requires '"' !in arg
    ensures Lex(arg + "\"", true, word) == [word + arg]
    ensures !OpenAfter(arg + "\"", true)
    decreases |arg|
  {
    var s := arg + "\"";
    if arg == "" {
      assert s[0] == '"' && s[1..] == "";
      assert word + "" == word && [word] + [] == [word];
    } else {
      assert s[0] == arg[0] && s[1..] == arg[1..] + "\"";
      LexString(arg[1..], word + [arg[0]]);
      assert (word + [arg[0]]) + arg[1..] == word + arg;
    }
  }

  lemma QuotedIsOneToken(arg: string)
    requires '"' !in arg
    ensures Tokens(Quote(arg)) == [arg] && Balanced(Quote(arg))
  {
    if NeedsQuotes(arg) {
      var s := "\"" + arg + "\"";
      assert s[0] == '"' && s[1..] == arg + "\"";
      LexString(arg, "");
      assert "" + arg == arg && [] + [arg] == [arg];
    } else {
      LexWord(arg, "");
      assert "" + arg == arg;
    }
  }

  /** Any list of quote-free arguments, printed with quotes where they are needed,
      tokenizes back to itself. */
  lemma {:induction false} PrintedArgumentsRoundTrip(args: seq<string>)
    requires forall i :: 0 <= i < |args| ==> '"' !in args[i]
    ensures Tokens(Print(args)) == args
  {
    if args != [] {
      QuotedIsOneToken(args[0]);
      if |args| > 1 {
        PrintedArgumentsRoundTrip(args[1..]);
        TokensOfJoin(Quote(args[0]), ' ');
        assert args == [args[0]] + args[1..];
      }
    }
  }
}
