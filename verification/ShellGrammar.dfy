/** Exactly which commands the two tokenizers (`src/findings/native-scanner-output.ts`,
    `scripts/validate-release-truth.ts`) accept, and into which tokens: a command is a
    sequence of plain and escaped characters, quoted texts and spaces. */
module ShellGrammar {
  import opened Wrappers
  import opened ShellTokens

  /** A character inside double quotes, as it is or behind a backslash. */
  datatype Inner = Plain(c: char) | Behind(c: char)

  datatype Unit =
    | Space(c: char)
    | Bareword(c: char)
    | Escape(c: char)
    | SingleQuoted(text: string)
    | DoubleQuoted(inner: seq<Inner>)

  function Written(inner: seq<Inner>): string {
    if inner == [] then "" else (match inner[0] case Plain(c) => [c] case Behind(c) => ['\\', c]) + Written(inner[1..])
  }

  function Meant(inner: seq<Inner>): string {
    if inner == [] then "" else [inner[0].c] + Meant(inner[1..])
  }

  /** What is typed. */
  function Typed(u: Unit): string {
    match u
    case Space(c) => [c]
    case Bareword(c) => [c]
    case Escape(c) => ['\\', c]
    case SingleQuoted(text) => "'" + text + "'"
    case DoubleQuoted(inner) => "\"" + Written(inner) + "\""
  }

  /** What it adds to the token it is in. */
  function Adds(u: Unit): string {
    match u
    case Space(_) => ""
    case Bareword(c) => [c]
    case Escape(c) => [c]
    case SingleQuoted(text) => text
    case DoubleQuoted(inner) => Meant(inner)
  }

  function TypedAll(units: seq<Unit>): string {
    if units == [] then "" else Typed(units[0]) + TypedAll(units[1..])
  }

  /** The tokens: what stands between spaces, where anything stands there at all. */
  function Tokens(units: seq<Unit>, token: string, started: bool): seq<string> {
    if units == [] then if started then [token] else []
    else if units[0].Space? then (if started then [token] else []) + Tokens(units[1..], "", false)
    else Tokens(units[1..], token + Adds(units[0]), true)
  }

  /** Whether the strict tokenizer takes it. */
  predicate StrictInner(x: Inner) {
    x.Plain? ==> x.c != '"' && x.c != '\\' && x.c != '$' && x.c != '`'
  }

  predicate Strict(u: Unit) {
    match u
    case Space(c) => IsSpace(c)
    case Bareword(c) => !IsSpace(c) && c != '\'' && c != '"' && c != '\\' && c !in "$`;|&<>(){}*?[]~#!"
    case Escape(_) => true
    case SingleQuoted(text) => '\'' !in text
    case DoubleQuoted(inner) => forall x <- inner :: StrictInner(x)
  }

  /** Whether the lenient one does. */
  predicate LenientInner(x: Inner) {
    x.Plain? ==> x.c != '"' && x.c != '\\'
  }

  predicate Loose(u: Unit) {
    match u
    case Space(c) => IsSpace(c)
    case Bareword(c) => !IsSpace(c) && c != '\'' && c != '"' && c != '\\'
    case Escape(_) => true
    case SingleQuoted(text) => '\'' !in text
    case DoubleQuoted(inner) => forall x <- inner :: LenientInner(x)
  }

  // ---------------------------------------------------------------- the strict tokenizer reads units

  lemma {:induction false} SingleIsRead(text: string, rest: string, token: string)
    requires '\'' !in text
    ensures Literal(text + "'" + rest, token, true, Single) == Literal(rest, token + text, true, Bare)
    decreases |text|
  {
    var s := text + "'" + rest;
    if text == "" {
      assert s[1..] == rest && token + text == token;
    } else {
      assert text[0] in text;
      assert s[1..] == text[1..] + "'" + rest && token + [text[0]] + text[1..] == token + text;
      SingleIsRead(text[1..], rest, token + [text[0]]);
    }
  }

  lemma InnerIsRead(x: Inner, tail: string, token: string)
    requires StrictInner(x)
    ensures Literal((if x.Plain? then [x.c] else ['\\', x.c]) + tail, token, true, Double) == Literal(tail, token + [x.c], true, Double)
  {
    if x.Plain? {
      assert ([x.c] + tail)[1..] == tail;
    } else {
      var s := ['\\', x.c] + tail;
      assert s[1..] == [x.c] + tail && s[1..][1..] == tail;
    }
  }

  lemma {:induction false} DoubleIsRead(inner: seq<Inner>, rest: string, token: string)
    requires forall x <- inner :: StrictInner(x)
    ensures Literal(Written(inner) + rest, token, true, Double) == Literal(rest, token + Meant(inner), true, Double)
    decreases |inner|
  {
    hide Literal;
    if inner == [] {
      assert Written(inner) + rest == rest && token + Meant(inner) == token;
    } else {
      var x, tail := inner[0], Written(inner[1..]) + rest;
      assert x in inner && forall y :: y in inner[1..] ==> y in inner;
      InnerIsRead(x, tail, token);
      DoubleIsRead(inner[1..], rest, token + [x.c]);
      assert token + [x.c] + Meant(inner[1..]) == token + Meant(inner);
      assert Written(inner) + rest == (if x.Plain? then [x.c] else ['\\', x.c]) + tail;
    }
  }

  lemma UnitIsRead(u: Unit, rest: string, token: string, started: bool)
    requires Strict(u)
    ensures Literal(Typed(u) + rest, token, started, Bare)
            == if u.Space? then Prefixed(Finished(started, token), Literal(rest, "", false, Bare))
               else Literal(rest, token + Adds(u), true, Bare)
  {
    hide Literal;
    match u
    case SingleQuoted(text) =>
      QuoteStarts('\'', text + "'" + rest, token, started);
      assert Typed(u) + rest == "'" + (text + "'" + rest);
      SingleIsRead(text, rest, token);
    case DoubleQuoted(inner) =>
      DoubleQuotedIsRead(inner, "\"" + rest, token, started);
      QuoteEnds(rest, token + Meant(inner));
      assert Typed(u) + rest == "\"" + Written(inner) + ("\"" + rest);
    case Escape(c) => EscapeIsRead(c, rest, token, started);
    case _ => CharacterIsRead(u, rest, token, started);
  }

  lemma CharacterIsRead(u: Unit, rest: string, token: string, started: bool)
    requires Strict(u) && (u.Space? || u.Bareword?)
    ensures Literal([u.c] + rest, token, started, Bare)
            == if u.Space? then Prefixed(Finished(started, token), Literal(rest, "", false, Bare)) else Literal(rest, token + [u.c], true, Bare)
  {
    assert ([u.c] + rest)[1..] == rest;
  }

  lemma EscapeIsRead(c: char, rest: string, token: string, started: bool)
    ensures Literal(['\\', c] + rest, token, started, Bare) == Literal(rest, token + [c], true, Bare)
  {
    var s := ['\\', c] + rest;
    assert s[1..] == [c] + rest && s[1..][1..] == rest;
  }

  lemma QuoteStarts(quote: char, rest: string, token: string, started: bool)
    requires quote == '\'' || quote == '"'
    ensures Literal([quote] + rest, token, started, Bare) == Literal(rest, token, true, if quote == '"' then Double else Single)
  {
    assert ([quote] + rest)[1..] == rest;
  }

  lemma QuoteEnds(rest: string, token: string)
    ensures Literal("\"" + rest, token, true, Double) == Literal(rest, token, true, Bare)
  {
    assert ("\"" + rest)[1..] == rest;
  }

  lemma DoubleQuotedIsRead(inner: seq<Inner>, tail: string, token: string, started: bool)
    requires forall x <- inner :: StrictInner(x)
    ensures Literal("\"" + Written(inner) + tail, token, started, Bare) == Literal(tail, token + Meant(inner), true, Double)
  {
    hide Literal;
    assert "\"" + Written(inner) + tail == "\"" + (Written(inner) + tail);
    QuoteStarts('"', Written(inner) + tail, token, started);
    DoubleIsRead(inner, tail, token);
  }

  /** Tokens followed by those of the rest. */
  function Before(units: seq<Unit>, token: string, started: bool, rest: string): Result<seq<string>, ShellError> {
    if units == [] then Literal(rest, token, started, Bare)
    else if units[0].Space? then Prefixed(Finished(started, token), Before(units[1..], "", false, rest))
    else Before(units[1..], token + Adds(units[0]), true, rest)
  }

  lemma {:induction false} UnitsAreRead(units: seq<Unit>, rest: string, token: string, started: bool)
    requires forall u <- units :: Strict(u)
    ensures Literal(TypedAll(units) + rest, token, started, Bare) == Before(units, token, started, rest)
    decreases |units|
  {
    if units == [] {
      assert TypedAll(units) + rest == rest;
    } else {
      var tail := TypedAll(units[1..]) + rest;
      assert TypedAll(units) + rest == Typed(units[0]) + tail;
      assert units[0] in units && forall u :: u in units[1..] ==> u in units;
      UnitIsRead(units[0], tail, token, started);
      hide Literal, Typed, Strict;
      if units[0].Space? {
        UnitsAreRead(units[1..], rest, "", false);
      } else {
        UnitsAreRead(units[1..], rest, token + Adds(units[0]), true);
      }
    }
  }

  lemma {:induction false} BeforeNothing(units: seq<Unit>, token: string, started: bool)
    ensures Before(units, token, started, "") == Ok(Tokens(units, token, started))
  {
    if units != [] {
      if units[0].Space? { BeforeNothing(units[1..], "", false); } else { BeforeNothing(units[1..], token + Adds(units[0]), true); }
    }
  }

  lemma {:induction false} BeforeFault(units: seq<Unit>, token: string, started: bool, rest: string, error: ShellError)
    requires forall t: string, b: bool :: Literal(rest, t, b, Bare) == Err(error)
    ensures Before(units, token, started, rest) == Err(error)
  {
    if units != [] {
      if units[0].Space? { BeforeFault(units[1..], "", false, rest, error); }
      else { BeforeFault(units[1..], token + Adds(units[0]), true, rest, error); }
    }
  }

  // ---------------------------------------------------------------- what it refuses

  /** The rest begins with something that cannot be taken. */
  ghost predicate Fault(rest: string, error: ShellError) {
    match error
    case Metacharacter(c) => rest != "" && rest[0] == c && c in "$`;|&<>(){}*?[]~#!"
    case IncompleteEscape => rest == "\\" || exists inner :: AllStrict(inner) && rest == "\"" + Written(inner) + "\\"
    case ShellExpansion(c) => c in "$`" && exists inner, tail :: AllStrict(inner) && rest == "\"" + Written(inner) + [c] + tail
    case Unterminated =>
      || (rest != "" && rest[0] == '\'' && '\'' !in rest[1..])
      || (exists inner :: AllStrict(inner) && rest == "\"" + Written(inner))
  }

  predicate AllStrict(inner: seq<Inner>) {
    forall x <- inner :: StrictInner(x)
  }

  lemma {:induction false} OpenSingle(rest: string, token: string)
    requires '\'' !in rest
    ensures Literal(rest, token, true, Single) == Err(Unterminated)
    decreases |rest|
  {
    if rest != "" {
      assert rest[0] in rest;
      OpenSingle(rest[1..], token + [rest[0]]);
    }
  }

  lemma OpenDouble(inner: seq<Inner>, tail: string, error: ShellError, token: string, started: bool)
    requires AllStrict(inner)
    requires (tail == "" && error == Unterminated) || (tail == "\\" && error == IncompleteEscape)
             || (tail != "" && tail[0] in "$`" && error == ShellExpansion(tail[0]))
    ensures Literal("\"" + Written(inner) + tail, token, started, Bare) == Err(error)
  {
    DoubleQuotedIsRead(inner, tail, token, started);
    assert Literal(tail, token + Meant(inner), true, Double) == Err(error);
  }

  lemma FaultIsRefused(rest: string, error: ShellError, token: string, started: bool)
    requires Fault(rest, error)
    ensures Literal(rest, token, started, Bare) == Err(error)
  {
    match error
    case Metacharacter(c) =>
    case IncompleteEscape =>
      if rest != "\\" {
        var inner :| AllStrict(inner) && rest == "\"" + Written(inner) + "\\";
        OpenDouble(inner, "\\", error, token, started);
      }
    case ShellExpansion(c) =>
      var inner, tail :| AllStrict(inner) && rest == "\"" + Written(inner) + [c] + tail;
      assert rest == "\"" + Written(inner) + ([c] + tail);
      OpenDouble(inner, [c] + tail, error, token, started);
    case Unterminated =>
      if rest[0] == '\'' {
        OpenSingle(rest[1..], token);
      } else {
        var inner :| AllStrict(inner) && rest == "\"" + Written(inner);
        assert rest == "\"" + Written(inner) + "";
        OpenDouble(inner, "", error, token, started);
      }
  }

  // ---------------------------------------------------------------- every command is units, or has a fault

  /** What is inside double quotes, up to the closing quote or the fault. */
  lemma {:induction false} ReadDouble(rest: string) returns (inner: seq<Inner>, tail: string)
    ensures AllStrict(inner) && rest == Written(inner) + tail
    ensures tail == "" || tail == "\\" || tail[0] in "\"$`"
    decreases |rest|
  {
    if rest == "" || rest == "\\" || rest[0] in "\"$`" {
      inner, tail := [], rest;
    } else if rest[0] == '\\' {
      inner, tail := ReadDouble(rest[2..]);
      assert rest == ['\\', rest[1]] + rest[2..];
      inner := [Behind(rest[1])] + inner;
      assert inner[1..] == inner[1..] && Written(inner) == ['\\', rest[1]] + Written(inner[1..]);
    } else {
      inner, tail := ReadDouble(rest[1..]);
      assert rest == [rest[0]] + rest[1..];
      inner := [Plain(rest[0])] + inner;
      assert Written(inner) == [rest[0]] + Written(inner[1..]);
    }
  }

  lemma {:induction false} ReadSingle(rest: string) returns (text: string, tail: string)
    ensures '\'' !in text && rest == text + tail && (tail == "" || tail[0] == '\'')
    decreases |rest|
  {
    if rest == "" || rest[0] == '\'' {
      text, tail := "", rest;
    } else {
      text, tail := ReadSingle(rest[1..]);
      text := [rest[0]] + text;
      assert rest == [rest[0]] + rest[1..];
    }
  }

  /** One unit off the front, or the fault there. */
  lemma ReadUnit(rest: string) returns (u: Unit, tail: string, fault: Option<ShellError>)
    requires rest != ""
    ensures fault.None? ==> Strict(u) && rest == Typed(u) + tail && |tail| < |rest|
    ensures fault.Some? ==> Fault(rest, fault.value)
  {
    var c := rest[0];
    u, tail, fault := Bareword(c), rest[1..], None;
    assert rest == [c] + rest[1..];
    if IsSpace(c) {
      u := Space(c);
    } else if c == '\'' {
      var text, after := ReadSingle(rest[1..]);
      if after == "" {
        fault := Some(Unterminated);
      } else {
        u, tail := SingleQuoted(text), after[1..];
        assert after == "'" + tail;
        assert rest == Typed(u) + tail;
      }
    } else if c == '"' {
      var inner, after := ReadDouble(rest[1..]);
      u, tail, fault := ReadQuoted(rest, inner, after);
    } else if c == '\\' {
      if |rest| == 1 {
        fault := Some(IncompleteEscape);
      } else {
        u, tail := Escape(rest[1]), rest[2..];
        assert rest == ['\\', rest[1]] + tail;
      }
    } else if IsMetacharacter(c) {
      fault := Some(Metacharacter(c));
    }
  }

  lemma ReadQuoted(rest: string, inner: seq<Inner>, after: string) returns (u: Unit, tail: string, fault: Option<ShellError>)
    requires rest == "\"" + Written(inner) + after && AllStrict(inner) && (after == "" || after == "\\" || after[0] in "\"$`")
    ensures fault.None? ==> Strict(u) && rest == Typed(u) + tail && |tail| < |rest|
    ensures fault.Some? ==> Fault(rest, fault.value)
  {
    u, tail, fault := DoubleQuoted(inner), "", None;
    if after == "" {
      assert rest == "\"" + Written(inner);
      fault := Some(Unterminated);
    } else if after == "\\" {
      fault := Some(IncompleteEscape);
    } else if after[0] == '"' {
      tail := after[1..];
      assert after == "\"" + tail;
      assert rest == Typed(u) + tail;
    } else {
      assert after == [after[0]] + after[1..];
      assert rest == "\"" + Written(inner) + [after[0]] + after[1..];
      fault := Some(ShellExpansion(after[0]));
    }
  }

  /** Every command is units throughout, or up to a fault. */
  lemma {:induction false} Read(rest: string) returns (units: seq<Unit>, tail: string)
    ensures (forall u <- units :: Strict(u)) && rest == TypedAll(units) + tail
    ensures tail == "" || exists error :: Fault(tail, error)
    decreases |rest|
  {
    hide Strict, Typed, Fault, Literal, Lenient;
    if rest == "" {
      units, tail := [], "";
    } else {
      var u, after, fault := ReadUnit(rest);
      if fault.Some? {
        units, tail := [], rest;
        assert TypedAll([]) + rest == rest;
      } else {
        units, tail := Read(after);
        assert rest == Typed(u) + (TypedAll(units) + tail);
        units := [u] + units;
        assert units[1..] == units[1..] && TypedAll(units) == Typed(u) + TypedAll(units[1..]);
      }
    }
  }

  /** The strict tokenizer accepts exactly the commands made of its units, with their
      tokens, and refuses all others for the first fault behind such units. */
  lemma StrictExactly(command: string)
    ensures forall tokens :: Literal(command, "", false, Bare) == Ok(tokens) <==>
              exists units :: (forall u <- units :: Strict(u)) && command == TypedAll(units) && tokens == Tokens(units, "", false)
    ensures forall error :: Literal(command, "", false, Bare) == Err(error) <==>
              exists units, rest :: (forall u <- units :: Strict(u)) && command == TypedAll(units) + rest && Fault(rest, error)
  {
    hide Literal, Strict, Fault, Typed;
    forall units | (forall u <- units :: Strict(u)) && command == TypedAll(units)
      ensures Literal(command, "", false, Bare) == Ok(Tokens(units, "", false))
    {
      assert command == TypedAll(units) + "";
      UnitsAreRead(units, "", "", false);
      BeforeNothing(units, "", false);
    }
    forall units, rest, error | (forall u <- units :: Strict(u)) && command == TypedAll(units) + rest && Fault(rest, error)
      ensures Literal(command, "", false, Bare) == Err(error)
    {
      forall t: string, b: bool
        ensures Literal(rest, t, b, Bare) == Err(error)
      {
        FaultIsRefused(rest, error, t, b);
      }
      UnitsAreRead(units, rest, "", false);
      BeforeFault(units, "", false, rest, error);
    }
    var units, tail := Read(command);
    if tail == "" {
      assert command == TypedAll(units);
    } else {
      var error :| Fault(tail, error);
    }
  }

  // ---------------------------------------------------------------- the lenient tokenizer

  lemma {:induction false} SingleIsSkimmed(text: string, rest: string, current: string)
    requires '\'' !in text
    ensures Lenient(text + "'" + rest, current, Single, false) == Lenient(rest, current + text, Bare, false)
    decreases |text|
  {
    var s := text + "'" + rest;
    if text == "" {
      assert s[1..] == rest && current + text == current;
    } else {
      assert text[0] in text;
      assert s[1..] == text[1..] + "'" + rest && current + [text[0]] + text[1..] == current + text;
      SingleIsSkimmed(text[1..], rest, current + [text[0]]);
    }
  }

  lemma InnerIsSkimmed(x: Inner, tail: string, current: string)
    requires LenientInner(x)
    ensures Lenient((if x.Plain? then [x.c] else ['\\', x.c]) + tail, current, Double, false) == Lenient(tail, current + [x.c], Double, false)
  {
    if x.Plain? {
      assert ([x.c] + tail)[1..] == tail;
    } else {
      var s := ['\\', x.c] + tail;
      assert s[1..] == [x.c] + tail && s[1..][1..] == tail;
      assert Lenient(s, current, Double, false) == Lenient(s[1..], current, Double, true);
    }
  }

  lemma {:induction false} DoubleIsSkimmed(inner: seq<Inner>, rest: string, current: string)
    requires forall x <- inner :: LenientInner(x)
    ensures Lenient(Written(inner) + rest, current, Double, false) == Lenient(rest, current + Meant(inner), Double, false)
    decreases |inner|
  {
    hide Lenient;
    if inner == [] {
      assert Written(inner) + rest == rest && current + Meant(inner) == current;
    } else {
      var x, tail := inner[0], Written(inner[1..]) + rest;
      assert x in inner && forall y :: y in inner[1..] ==> y in inner;
      InnerIsSkimmed(x, tail, current);
      DoubleIsSkimmed(inner[1..], rest, current + [x.c]);
      assert current + [x.c] + Meant(inner[1..]) == current + Meant(inner);
      assert Written(inner) + rest == (if x.Plain? then [x.c] else ['\\', x.c]) + tail;
    }
  }

  lemma UnitIsSkimmed(u: Unit, rest: string, current: string)
    requires Loose(u)
    ensures Lenient(Typed(u) + rest, current, Bare, false)
            == if u.Space? then Prefixed(Kept(current), Lenient(rest, "", Bare, false)) else Lenient(rest, current + Adds(u), Bare, false)
  {
    var s := Typed(u) + rest;
    match u
    case Space(c) => assert s[1..] == rest;
    case Bareword(c) => assert s[1..] == rest;
    case Escape(c) =>
      assert s[1..] == [c] + rest && s[1..][1..] == rest;
      assert Lenient(s, current, Bare, false) == Lenient(s[1..], current, Bare, true);
    case SingleQuoted(text) =>
      QuoteOpens('\'', text + "'" + rest, current);
      assert s == "'" + (text + "'" + rest);
      SingleIsSkimmed(text, rest, current);
    case DoubleQuoted(inner) =>
      DoubleQuotedIsSkimmed(inner, rest, current);
  }

  lemma QuoteOpens(quote: char, rest: string, current: string)
    requires quote == '\'' || quote == '"'
    ensures Lenient([quote] + rest, current, Bare, false) == Lenient(rest, current, if quote == '"' then Double else Single, false)
  {
    assert ([quote] + rest)[1..] == rest;
  }

  lemma QuoteCloses(rest: string, current: string)
    ensures Lenient("\"" + rest, current, Double, false) == Lenient(rest, current, Bare, false)
  {
    assert ("\"" + rest)[1..] == rest;
  }

  lemma DoubleQuotedIsSkimmed(inner: seq<Inner>, rest: string, current: string)
    requires forall x <- inner :: LenientInner(x)
    ensures Lenient("\"" + Written(inner) + "\"" + rest, current, Bare, false) == Lenient(rest, current + Meant(inner), Bare, false)
  {
    hide Lenient;
    var tail := "\"" + rest;
    assert "\"" + Written(inner) + "\"" + rest == "\"" + (Written(inner) + tail);
    QuoteOpens('"', Written(inner) + tail, current);
    DoubleIsSkimmed(inner, tail, current);
    QuoteCloses(rest, current + Meant(inner));
  }

  /** The tokens that are not empty. */
  function Words(units: seq<Unit>, current: string): seq<string> {
    if units == [] then Kept(current)
    else if units[0].Space? then Kept(current) + Words(units[1..], "")
    else Words(units[1..], current + Adds(units[0]))
  }

  lemma {:induction false} UnitsAreSkimmed(units: seq<Unit>, current: string)
    requires forall u <- units :: Loose(u)
    ensures Lenient(TypedAll(units), current, Bare, false) == Ok(Words(units, current))
    decreases |units|
  {
    if units != [] {
      assert units[0] in units && forall u :: u in units[1..] ==> u in units;
      UnitIsSkimmed(units[0], TypedAll(units[1..]), current);
      hide Lenient, Typed, Loose;
      if units[0].Space? { UnitsAreSkimmed(units[1..], ""); } else { UnitsAreSkimmed(units[1..], current + Adds(units[0])); }
    }
  }

  /** They are the tokens of the same units but the empty ones. */
  lemma {:induction false} WordsAre(units: seq<Unit>, token: string, started: bool)
    requires !started ==> token == ""
    ensures Words(units, token) == NonEmpty(Tokens(units, token, started))
  {
    if units == [] {
      assert NonEmpty([token]) == Kept(token) + NonEmpty([token][1..]);
    } else if units[0].Space? {
      WordsAre(units[1..], "", false);
      NonEmptyOfJoin(if started then [token] else [], Tokens(units[1..], "", false));
      assert NonEmpty([token]) == Kept(token) + NonEmpty([token][1..]);
    } else {
      WordsAre(units[1..], token + Adds(units[0]), true);
    }
  }

  lemma {:induction false} SkimDouble(rest: string, current: string) returns (inner: seq<Inner>, tail: string)
    requires Lenient(rest, current, Double, false).Ok?
    ensures (forall x <- inner :: LenientInner(x)) && rest == Written(inner) + "\"" + tail
    ensures Lenient(tail, current + Meant(inner), Bare, false).Ok?
    decreases |rest|
  {
    if rest[0] == '"' {
      inner, tail := [], rest[1..];
      assert rest == "\"" + tail && current + Meant([]) == current;
    } else if rest[0] == '\\' {
      assert Lenient(rest, current, Double, false) == Lenient(rest[1..], current, Double, true);
      assert rest[1..][1..] == rest[2..];
      inner, tail := SkimDouble(rest[2..], current + [rest[1]]);
      assert rest == ['\\', rest[1]] + rest[2..];
      assert current + [rest[1]] + Meant(inner) == current + ([rest[1]] + Meant(inner));
      inner := [Behind(rest[1])] + inner;
      assert Written(inner) == ['\\', rest[1]] + Written(inner[1..]);
    } else {
      inner, tail := SkimDouble(rest[1..], current + [rest[0]]);
      assert rest == [rest[0]] + rest[1..];
      assert current + [rest[0]] + Meant(inner) == current + ([rest[0]] + Meant(inner));
      inner := [Plain(rest[0])] + inner;
      assert Written(inner) == [rest[0]] + Written(inner[1..]);
    }
  }

  lemma {:induction false} SkimSingle(rest: string, current: string) returns (text: string, tail: string)
    requires Lenient(rest, current, Single, false).Ok?
    ensures '\'' !in text && rest == text + "'" + tail && Lenient(tail, current + text, Bare, false).Ok?
    decreases |rest|
  {
    if rest[0] == '\'' {
      text, tail := "", rest[1..];
      assert rest == "'" + tail && current + text == current;
    } else {
      text, tail := SkimSingle(rest[1..], current + [rest[0]]);
      assert rest == [rest[0]] + rest[1..] && current + [rest[0]] + text == current + ([rest[0]] + text);
      text := [rest[0]] + text;
    }
  }

  lemma SkimUnit(rest: string, current: string) returns (u: Unit, tail: string)
    requires rest != "" && Lenient(rest, current, Bare, false).Ok?
    ensures Loose(u) && rest == Typed(u) + tail && |tail| < |rest|
    ensures Lenient(tail, if u.Space? then "" else current + Adds(u), Bare, false).Ok?
  {
    var c := rest[0];
    u, tail := Bareword(c), rest[1..];
    assert rest == [c] + rest[1..];
    if c == '\\' {
      assert Lenient(rest, current, Bare, false) == Lenient(rest[1..], current, Bare, true);
      u, tail := Escape(rest[1]), rest[2..];
      assert rest == ['\\', rest[1]] + tail && rest[1..][1..] == tail;
    } else if c == '\'' {
      var text, after := SkimSingle(rest[1..], current);
      u, tail := SingleQuoted(text), after;
      assert rest == Typed(u) + tail;
    } else if c == '"' {
      var inner, after := SkimDouble(rest[1..], current);
      u, tail := DoubleQuoted(inner), after;
      assert rest == Typed(u) + tail;
    } else if IsSpace(c) {
      u := Space(c);
    }
  }

  lemma {:induction false} Skim(rest: string, current: string) returns (units: seq<Unit>)
    requires Lenient(rest, current, Bare, false).Ok?
    ensures (forall u <- units :: Loose(u)) && rest == TypedAll(units)
    decreases |rest|
  {
    if rest == "" {
      units := [];
    } else {
      var u, tail := SkimUnit(rest, current);
      units := Skim(tail, if u.Space? then "" else current + Adds(u));
      units := [u] + units;
      assert TypedAll(units) == Typed(u) + TypedAll(units[1..]);
    }
  }

  /** The lenient tokenizer accepts exactly the commands made of its units, with their
      tokens but the empty ones. */
  lemma LenientExactly(command: string)
    ensures forall tokens :: Lenient(command, "", Bare, false) == Ok(tokens) <==>
              exists units :: (forall u <- units :: Loose(u)) && command == TypedAll(units) && tokens == NonEmpty(Tokens(units, "", false))
  {
    hide Lenient, Loose, Typed;
    forall units | (forall u <- units :: Loose(u)) && command == TypedAll(units)
      ensures Lenient(command, "", Bare, false) == Ok(NonEmpty(Tokens(units, "", false)))
    {
      UnitsAreSkimmed(units, "");
      WordsAre(units, "", false);
    }
    if Lenient(command, "", Bare, false).Ok? {
      var units := Skim(command, "");
    }
  }
}
