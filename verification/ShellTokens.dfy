/** Two shell tokenizers: the strict one for native scanner commands
    (`src/findings/native-scanner-output.ts`) and the lenient one for documentation
    examples (`scripts/validate-release-truth.ts`). */
module ShellTokens {
  import opened Wrappers

  datatype ShellError = ShellExpansion(character: char) | IncompleteEscape | Metacharacter(character: char) | Unterminated

  datatype Quote = Bare | Single | Double

  /** The characters `\s` matches. */
  predicate IsSpace(c: char) {
    || '\t' <= c <= '\r' || c == ' ' || c == '\U{A0}' || c == '\U{1680}' || '\U{2000}' <= c <= '\U{200A}'
    || c == '\U{2028}' || c == '\U{2029}' || c == '\U{202F}' || c == '\U{205F}' || c == '\U{3000}' || c == '\U{FEFF}'
  }

  predicate IsMetacharacter(c: char) {
    c in "$`;|&<>(){}*?[]~#!\n\r"
  }

  // ---------------------------------------------------------------- the strict tokenizer

  function Finished(started: bool, token: string): seq<string> {
    if started then [token] else []
  }

  /** The tokens from here on, `token` being under way. */
  function Literal(rest: string, token: string, started: bool, quote: Quote): Result<seq<string>, ShellError>
    decreases |rest|
  {
    if rest == [] then
      if quote != Bare then Err(Unterminated) else Ok(Finished(started, token))
    else
      var (c, tail) := (rest[0], rest[1..]);
      match quote
      case Single => if c == '\'' then Literal(tail, token, true, Bare) else Literal(tail, token + [c], true, Single)
      case Double =>
        if c == '"' then Literal(tail, token, true, Bare)
        else if c == '$' || c == '`' then Err(ShellExpansion(c))
        else if c == '\\' then
          if tail == [] then Err(IncompleteEscape) else Literal(tail[1..], token + [tail[0]], true, Double)
        else Literal(tail, token + [c], true, Double)
      case Bare =>
        if IsSpace(c) then Prefixed(Finished(started, token), Literal(tail, "", false, Bare))
        else if c == '\'' then Literal(tail, token, true, Single)
        else if c == '"' then Literal(tail, token, true, Double)
        else if c == '\\' then
          if tail == [] then Err(IncompleteEscape) else Literal(tail[1..], token + [tail[0]], true, Bare)
        else if IsMetacharacter(c) then Err(Metacharacter(c))
        else Literal(tail, token + [c], true, Bare)
  }

  /** `tokenizeLiteralShell`. */
  method TokenizeLiteralShell(command: string) returns (r: Result<seq<string>, ShellError>)
    ensures r == Literal(command, "", false, Bare)
  {
    var tokens: seq<string> := [];
    var token, tokenStarted, quote, index := "", false, Bare, 0;
    assert command[0..] == command;
    PrefixedByNothing(Literal(command, "", false, Bare));
    while index < |command|
      invariant 0 <= index <= |command|
      invariant !tokenStarted ==> token == ""
      invariant Literal(command, "", false, Bare) == Prefixed(tokens, Literal(command[index..], token, tokenStarted, quote))
    {
      var character := command[index];
      assert command[index..][0] == character && command[index..][1..] == command[index + 1..];
      if quote == Single {
        if character == '\'' { quote := Bare; } else { token := token + [character]; }
        tokenStarted := true;
      } else if quote == Double {
        if character == '"' {
          quote := Bare;
        } else if character == '$' || character == '`' {
          return Err(ShellExpansion(character));
        } else if character == '\\' {
          if index + 1 == |command| { return Err(IncompleteEscape); }
          token := token + [command[index + 1]];
          index := index + 1;
          assert command[index..][1..] == command[index + 1..];
        } else {
          token := token + [character];
        }
        tokenStarted := true;
      } else if IsSpace(character) {
        PrefixedTwice(tokens, Finished(tokenStarted, token), Literal(command[index + 1..], "", false, Bare));
        if tokenStarted {
          tokens := tokens + [token];
          token, tokenStarted := "", false;
        } else {
          assert tokens + [] == tokens;
        }
      } else if character == '\'' {
        quote, tokenStarted := Single, true;
      } else if character == '"' {
        quote, tokenStarted := Double, true;
      } else if character == '\\' {
        if index + 1 == |command| { return Err(IncompleteEscape); }
        token, tokenStarted := token + [command[index + 1]], true;
        index := index + 1;
        assert command[index..][1..] == command[index + 1..];
      } else {
        if IsMetacharacter(character) { return Err(Metacharacter(character)); }
        token, tokenStarted := token + [character], true;
      }
      index := index + 1;
    }
    if quote != Bare { return Err(Unterminated); }
    return Ok(tokens + Finished(tokenStarted, token));
  }

  // ---------------------------------------------------------------- the lenient tokenizer

  function Kept(token: string): seq<string> {
    if token == "" then [] else [token]
  }

  function Lenient(rest: string, current: string, quote: Quote, escaped: bool): Result<seq<string>, ShellError>
    decreases |rest|
  {
    if rest == [] then
      if escaped || quote != Bare then Err(Unterminated) else Ok(Kept(current))
    else
      var (c, tail) := (rest[0], rest[1..]);
      if escaped then Lenient(tail, current + [c], quote, false)
      else if c == '\\' && quote != Single then Lenient(tail, current, quote, true)
      else if quote == Single then
        if c == '\'' then Lenient(tail, current, Bare, false) else Lenient(tail, current + [c], quote, false)
      else if quote == Double then
        if c == '"' then Lenient(tail, current, Bare, false) else Lenient(tail, current + [c], quote, false)
      else if c == '\'' then Lenient(tail, current, Single, false)
      else if c == '"' then Lenient(tail, current, Double, false)
      else if IsSpace(c) then Prefixed(Kept(current), Lenient(tail, "", Bare, false))
      else Lenient(tail, current + [c], Bare, false)
  }

  /** `commandTokens`. */
  method CommandTokens(command: string) returns (r: Result<seq<string>, ShellError>)
    ensures r == Lenient(command, "", Bare, false)
  {
    var tokens: seq<string> := [];
    var current, quote, escaped := "", Bare, false;
    assert command[0..] == command;
    PrefixedByNothing(Lenient(command, "", Bare, false));
    for index: nat := 0 to |command|
      invariant Lenient(command, "", Bare, false) == Prefixed(tokens, Lenient(command[index..], current, quote, escaped))
    {
      var character := command[index];
      assert command[index..][0] == character && command[index..][1..] == command[index + 1..];
      if escaped {
        current, escaped := current + [character], false;
        continue;
      }
      if character == '\\' && quote != Single {
        escaped := true;
        continue;
      }
      if quote != Bare {
        if character == (if quote == Single then '\'' else '"') { quote := Bare; } else { current := current + [character]; }
        continue;
      }
      if character == '\'' || character == '"' {
        quote := if character == '\'' then Single else Double;
        continue;
      }
      if IsSpace(character) {
        PrefixedTwice(tokens, Kept(current), Lenient(command[index + 1..], "", Bare, false));
        if current != "" {
          tokens := tokens + [current];
          current := "";
        } else {
          assert tokens + [] == tokens;
        }
        continue;
      }
      current := current + [character];
    }
    if escaped || quote != Bare { return Err(Unterminated); }
    return Ok(tokens + Kept(current));
  }

  // ---------------------------------------------------------------- the lenient follows the strict

  function NonEmpty(tokens: seq<string>): seq<string> {
    if tokens == [] then [] else Kept(tokens[0]) + NonEmpty(tokens[1..])
  }

  lemma NonEmptyOfJoin(a: seq<string>, b: seq<string>)
    requires |a| <= 1
    ensures NonEmpty(a + b) == NonEmpty(a) + NonEmpty(b)
  {
    if a == [] {
      assert a + b == b;
    } else {
      assert (a + b)[1..] == b && a[1..] == [];
    }
  }

  /** Wherever the strict tokenizer gets to the end, the lenient one does from there, with
      the same tokens but the empty ones. */
  lemma {:induction false} LenientFollows(rest: string, token: string, started: bool, quote: Quote)
    requires !started ==> token == ""
    requires Literal(rest, token, started, quote).Ok?
    ensures Lenient(rest, token, quote, false) == Ok(NonEmpty(Literal(rest, token, started, quote).value))
    decreases |rest|
  {
    if rest == [] {
      NonEmptyOfJoin(Finished(started, token), []);
      assert NonEmpty([token]) == Kept(token) + NonEmpty([token][1..]);
    } else {
      var (c, tail) := (rest[0], rest[1..]);
      if quote == Single {
        if c == '\'' { LenientFollows(tail, token, true, Bare); } else { LenientFollows(tail, token + [c], true, Single); }
      } else if c == '\\' {
        LenientFollows(tail[1..], token + [tail[0]], true, quote);
      } else if quote == Double {
        if c == '"' { LenientFollows(tail, token, true, Bare); } else { LenientFollows(tail, token + [c], true, Double); }
      } else if IsSpace(c) {
        LenientFollows(tail, "", false, Bare);
        NonEmptyOfJoin(Finished(started, token), Literal(tail, "", false, Bare).value);
        assert NonEmpty([token]) == Kept(token) + NonEmpty([token][1..]);
      } else if c == '\'' {
        LenientFollows(tail, token, true, Single);
      } else if c == '"' {
        LenientFollows(tail, token, true, Double);
      } else {
        LenientFollows(tail, token + [c], true, Bare);
      }
    }
  }

  /** A command the strict tokenizer accepts has the same non-empty tokens for both. */
  lemma TokenizersAgree(command: string)
    requires Literal(command, "", false, Bare).Ok?
    ensures Lenient(command, "", Bare, false) == Ok(NonEmpty(Literal(command, "", false, Bare).value))
  {
    LenientFollows(command, "", false, Bare);
  }

  // ---------------------------------------------------------------- the round trip

  /** The text between the quotes: `'` is written `'\''`. */
  function Escaped(token: string): string {
    if token == "" then "" else (if token[0] == '\'' then "'\\''" else [token[0]]) + Escaped(token[1..])
  }

  function Quoted(token: string): string {
    "'" + Escaped(token) + "'"
  }

  /** The tokens in single quotes, separated by spaces. */
  function Rendered(tokens: seq<string>): string {
    if tokens == [] then ""
    else if |tokens| == 1 then Quoted(tokens[0])
    else Quoted(tokens[0]) + " " + Rendered(tokens[1..])
  }

  /** Reading a quoted text appends it to the token under way. */
  lemma {:induction false} EscapedIsRead(token: string, rest: string, read: string)
    ensures Literal(Escaped(token) + "'" + rest, read, true, Single) == Literal(rest, read + token, true, Bare)
    decreases |token|
  {
    if token == "" {
      assert Escaped(token) + "'" + rest == "'" + rest && ("'" + rest)[1..] == rest && read + token == read;
    } else {
      var tail := Escaped(token[1..]) + "'" + rest;
      EscapedIsRead(token[1..], rest, read + [token[0]]);
      assert read + [token[0]] + token[1..] == read + token;
      if token[0] == '\'' {
        assert Escaped(token) + "'" + rest == "'\\''" + tail;
        QuoteIsRead(tail, read);
      } else {
        assert Escaped(token) + "'" + rest == [token[0]] + tail;
        assert ([token[0]] + tail)[1..] == tail;
      }
    }
  }

  /** `'\''` inside single quotes reads as a quote. */
  lemma QuoteIsRead(rest: string, read: string)
    ensures Literal("'\\''" + rest, read, true, Single) == Literal(rest, read + "'", true, Single)
  {
    var s := "'\\''" + rest;
    assert s[1..] == "\\''" + rest && s[1..][1..] == "''" + rest && s[1..][1..][1..] == "'" + rest && ("'" + rest)[1..] == rest;
    assert Literal(s, read, true, Single) == Literal("\\''" + rest, read, true, Bare);
    assert Literal("\\''" + rest, read, true, Bare) == Literal("'" + rest, read + "'", true, Bare);
  }

  lemma QuotedIsRead(token: string, rest: string)
    ensures Literal(Quoted(token) + rest, "", false, Bare) == Literal(rest, token, true, Bare)
  {
    var s := Quoted(token) + rest;
    assert s[0] == '\'' && s[1..] == Escaped(token) + "'" + rest;
    EscapedIsRead(token, rest, "");
    assert "" + token == token;
  }

  /** The strict tokenizer reads back any list of tokens, empty ones included. */
  lemma {:induction false} RenderedReadsBack(tokens: seq<string>)
    ensures Literal(Rendered(tokens), "", false, Bare) == Ok(tokens)
  {
    if tokens == [] {
    } else {
      var rest := if |tokens| == 1 then "" else " " + Rendered(tokens[1..]);
      assert Rendered(tokens) == Quoted(tokens[0]) + rest;
      QuotedIsRead(tokens[0], rest);
      if |tokens| > 1 {
        RenderedReadsBack(tokens[1..]);
        assert rest[0] == ' ' && rest[1..] == Rendered(tokens[1..]);
        assert [tokens[0]] + tokens[1..] == tokens;
      } else {
        assert Rendered(tokens) == Rendered(tokens) + "" && tokens == [tokens[0]];
      }
    }
  }
}
