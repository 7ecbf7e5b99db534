/** The key-sequence language of libs/enigo/src/dsl.rs: tokenizer, its exact image, and a printer. */
module KeyDsl {
  import opened Basics

  datatype Key = Shift | Control | Meta | Alt | Layout(c: char)

  datatype Token = Sequence(text: string) | Unicode(text: string) | KeyUp(key: Key) | KeyDown(key: Key)

  datatype ParseError = UnknownTag(tag: string) | UnexpectedOpen | UnmatchedOpen | UnmatchedClose

  // ----- specification -----

  function Text(buffer: string, unicode: bool): Token {
    if unicode then Unicode(buffer) else Sequence(buffer)
  }

  function Flush(tokens: seq<Token>, buffer: string, unicode: bool): seq<Token> {
    if buffer == "" then tokens else tokens + [Text(buffer, unicode)]
  }

  /** A tag switches the text mode or is a key token. */
  datatype Effect = Mode(unicode: bool) | Press(token: Token)

  function EffectOf(tag: string): Option<Effect> {
    if tag == "+UNICODE" then Some(Mode(true))
    else if tag == "-UNICODE" then Some(Mode(false))
    else if tag == "+SHIFT" then Some(Press(KeyDown(Shift)))
    else if tag == "-SHIFT" then Some(Press(KeyUp(Shift)))
    else if tag == "+CTRL" then Some(Press(KeyDown(Control)))
    else if tag == "-CTRL" then Some(Press(KeyUp(Control)))
    else if tag == "+META" then Some(Press(KeyDown(Meta)))
    else if tag == "-META" then Some(Press(KeyUp(Meta)))
    else if tag == "+ALT" then Some(Press(KeyDown(Alt)))
    else if tag == "-ALT" then Some(Press(KeyUp(Alt)))
    else None
  }

  /** Reads a tag whose next character is `c`; `s` is what follows it. Doubled braces belong to the tag. */
  function ReadTag(s: string, c: char, tag: string): (r: Result<(string, string), ParseError>)
    ensures r.Ok? ==> |r.value.1| < |s|
    decreases |s|
  {
    if s == "" then Err(UnmatchedOpen)
    else if s[0] == '{' then
      if |s| > 1 && s[1] == '{' then ReadTag(s[2..], '{', tag + [c]) else Err(UnexpectedOpen)
    else if s[0] == '}' then
      if |s| > 1 && s[1] == '}' then ReadTag(s[2..], '}', tag + [c]) else Ok((tag + [c], s[1..]))
    else ReadTag(s[1..], s[0], tag + [c])
  }

  function Scan(s: string, unicode: bool, buffer: string, tokens: seq<Token>): Result<seq<Token>, ParseError>
    decreases |s|
  {
    if s == "" then Ok(Flush(tokens, buffer, unicode))
    else if s[0] == '{' then
      if |s| == 1 then Err(UnmatchedOpen)
      else if s[1] == '{' then Scan(s[2..], unicode, buffer + ['{'], tokens)
      else ScanTag(s[2..], s[1], unicode, Flush(tokens, buffer, unicode))
    else if s[0] == '}' then
      if |s| > 1 && s[1] == '}' then Scan(s[2..], unicode, buffer + ['}'], tokens) else Err(UnmatchedClose)
    else Scan(s[1..], unicode, buffer + [s[0]], tokens)
  }

  function ScanTag(s: string, c: char, unicode: bool, tokens: seq<Token>): Result<seq<Token>, ParseError>
    decreases |s|
  {
    match ReadTag(s, c, "")
    case Err(e) => Err(e)
    case Ok((tag, rest)) =>
      match EffectOf(tag)
      case None => Err(UnknownTag(tag))
      case Some(Mode(u)) => Scan(rest, u, "", tokens)
      case Some(Press(t)) => Scan(rest, unicode, "", tokens + [t])
  }

  function Tokenized(input: string): Result<seq<Token>, ParseError> {
    Scan(input, false, "", [])
  }

  // ----- every token list the tokenizer returns is well formed -----

  predicate IsText(t: Token) {
    t.Sequence? || t.Unicode?
  }

  /** Text is not empty, and only a leading plain sequence may start with a closing brace; keys are modifiers. */
  predicate TokenOk(t: Token, i: nat) {
    if IsText(t)
    then t.text != "" && (t.text[0] == '}' ==> t.Sequence? && i == 0)
    else t.key in {Shift, Control, Meta, Alt}
  }

  predicate WellFormed(tokens: seq<Token>) {
    forall i :: 0 <= i < |tokens| ==> TokenOk(tokens[i], i)
  }

  /** The scanner's state is harmless: pending text may be flushed, and an empty buffer may not gain a brace first. */
  predicate Clean(s: string, unicode: bool, buffer: string, tokens: seq<Token>) {
    && WellFormed(Flush(tokens, buffer, unicode))
    && (buffer == "" && s != "" && s[0] == '}' ==> tokens == [] && !unicode)
  }

  lemma {:induction false} ReadTagStops(s: string, c: char, tag: string)
    ensures ReadTag(s, c, tag).Ok? ==> var rest := ReadTag(s, c, tag).value.1; rest == "" || rest[0] != '}'
    decreases |s|
  {
    if s != "" {
      if s[0] == '{' || s[0] == '}' {
        if |s| > 1 && s[1] == s[0] {
          ReadTagStops(s[2..], s[0], tag + [c]);
        }
      } else {
        ReadTagStops(s[1..], s[0], tag + [c]);
      }
    }
  }

  lemma {:induction false} PushKeepsClean(s: string, c: char, rest: string, unicode: bool, buffer: string,
                                          tokens: seq<Token>)
    requires Clean(s, unicode, buffer, tokens) && s != "" && c == s[0]
    ensures Clean(rest, unicode, buffer + [c], tokens)
  {
    assert (buffer + [c])[0] == if buffer == "" then c else buffer[0];
    assert WellFormed(tokens) by {
      assert forall i :: 0 <= i < |tokens| ==> tokens[i] == Flush(tokens, buffer, unicode)[i];
    }
    if buffer != "" {
      assert Flush(tokens, buffer, unicode)[|tokens|] == Text(buffer, unicode);
    }
  }

  lemma {:induction false} ScanWellFormed(s: string, unicode: bool, buffer: string, tokens: seq<Token>)
    requires Clean(s, unicode, buffer, tokens)
    ensures Scan(s, unicode, buffer, tokens).Ok? ==> WellFormed(Scan(s, unicode, buffer, tokens).value)
    decreases |s|
  {
    if s == "" {
    } else if s[0] == '{' || s[0] == '}' {
      if |s| > 1 && s[1] == s[0] {
        PushKeepsClean(s, s[0], s[2..], unicode, buffer, tokens);
        ScanWellFormed(s[2..], unicode, buffer + [s[0]], tokens);
      } else if |s| > 1 && s[0] == '{' {
        var flushed := Flush(tokens, buffer, unicode);
        ReadTagStops(s[2..], s[1], "");
        var r := ReadTag(s[2..], s[1], "");
        if r.Ok? && EffectOf(r.value.0).Some? {
          match EffectOf(r.value.0).value
          case Mode(u) => ScanWellFormed(r.value.1, u, "", flushed);
          case Press(t) => ScanWellFormed(r.value.1, unicode, "", flushed + [t]);
        }
      }
    } else {
      PushKeepsClean(s, s[0], s[1..], unicode, buffer, tokens);
      ScanWellFormed(s[1..], unicode, buffer + [s[0]], tokens);
    }
  }

  // ----- a printer -----

  function EscapeChar(c: char): string {
    if c == '{' || c == '}' then [c, c] else [c]
  }

  function Escape(text: string): string {
    if text == "" then "" else EscapeChar(text[0]) + Escape(text[1..])
  }

  /** The tag of a key token or, for text, of its mode. */
  function TagOf(t: Token): string {
    match t
    case Sequence(_) => "-UNICODE"
    case Unicode(_) => "+UNICODE"
    case KeyDown(Shift) => "+SHIFT"
    case KeyUp(Shift) => "-SHIFT"
    case KeyDown(Control) => "+CTRL"
    case KeyUp(Control) => "-CTRL"
    case KeyDown(Meta) => "+META"
    case KeyUp(Meta) => "-META"
    case KeyDown(Alt) => "+ALT"
    case KeyUp(Alt) => "-ALT"
    case KeyDown(Layout(c)) => [c]
    case KeyUp(Layout(c)) => [c]
  }

  /** A leading plain sequence needs no tag; every other text gets its mode tag first. */
  function PrintToken(t: Token, i: nat): string {
    (if i == 0 && t.Sequence? then "" else "{" + TagOf(t) + "}") + (if IsText(t) then Escape(t.text) else "")
  }

  function PrintFrom(tokens: seq<Token>, i: nat): string
    requires i <= |tokens|
    decreases |tokens| - i
  {
    if i == |tokens| then "" else PrintToken(tokens[i], i) + PrintFrom(tokens, i + 1)
  }

  function Print(tokens: seq<Token>): string {
    PrintFrom(tokens, 0)
  }

  lemma {:induction false} ScanChar(c: char, rest: string, unicode: bool, buffer: string, tokens: seq<Token>)
    ensures Scan(EscapeChar(c) + rest, unicode, buffer, tokens) == Scan(rest, unicode, buffer + [c], tokens)
  {
    hide ScanTag, Flush;
    var s := EscapeChar(c) + rest;
    assert s[|EscapeChar(c)|..] == rest;
  }

  /** Escaped text goes into the buffer unchanged, whatever follows it. */
  lemma {:induction false} ScanEscaped(text: string, rest: string, unicode: bool, buffer: string, tokens: seq<Token>)
    ensures Scan(Escape(text) + rest, unicode, buffer, tokens) == Scan(rest, unicode, buffer + text, tokens)
    decreases |text|
  {
    hide Scan, EscapeChar;
    if text == "" {
      assert Escape(text) + rest == rest && buffer + text == buffer;
    } else {
      var c, after := text[0], Escape(text[1..]) + rest;
      assert Escape(text) + rest == EscapeChar(c) + after;
      ScanChar(c, after, unicode, buffer, tokens);
      ScanEscaped(text[1..], rest, unicode, buffer + [c], tokens);
      assert (buffer + [c]) + text[1..] == buffer + text;
    }
  }

  predicate NoBraces(s: string) {
    forall c <- s :: c != '{' && c != '}'
  }

  lemma {:induction false} ReadPlainTag(t: string, c: char, tag: string, rest: string)
    requires NoBraces(t) && (rest == "" || rest[0] != '}')
    ensures ReadTag(t + "}" + rest, c, tag) == Ok((tag + [c] + t, rest))
    decreases |t|
  {
    var s := t + "}" + rest;
    if t == "" {
      assert s == "}" + rest && s[1..] == rest;
      assert tag + [c] + t == tag + [c];
    } else {
      assert s == [t[0]] + (t[1..] + "}" + rest);
      assert t[0] in t && forall x <- t[1..] :: x in t;
      ReadPlainTag(t[1..], t[0], tag + [c], rest);
      assert tag + [c] + [t[0]] + t[1..] == tag + [c] + t;
    }
  }

  lemma {:induction false} ScanPrintedTag(t: Token, rest: string, unicode: bool, buffer: string, tokens: seq<Token>,
                                          i: nat)
    requires TokenOk(t, i) && (rest == "" || rest[0] != '}')
    ensures Scan("{" + TagOf(t) + "}" + rest, unicode, buffer, tokens)
            == var flushed := Flush(tokens, buffer, unicode);
               if IsText(t) then Scan(rest, t.Unicode?, "", flushed) else Scan(rest, unicode, "", flushed + [t])
  {
    hide EffectOf, TagOf, TokenOk, NoBraces, Flush;
    TagHasEffect(t, i);
    var tag := TagOf(t);
    var s := "{" + tag + "}" + rest;
    ReadPlainTag(tag[1..], tag[0], "", rest);
    assert s[2..] == tag[1..] + "}" + rest;
    assert "" + [tag[0]] + tag[1..] == tag;
    assert s[0] == '{' && s[1] == tag[0];
  }

  lemma {:induction false} TagHasEffect(t: Token, i: nat)
    requires TokenOk(t, i)
    ensures EffectOf(TagOf(t)) == Some(if IsText(t) then Mode(t.Unicode?) else Press(t))
    ensures NoBraces(TagOf(t)) && |TagOf(t)| > 1
    ensures TagOf(t)[0] in "+-" && NoBraces(TagOf(t)[1..])
  {
    var tag := TagOf(t);
    assert tag[0] == '+' || tag[0] == '-';
    assert forall k :: 0 <= k < |tag| - 1 ==> tag[1..][k] == tag[k + 1];
  }

  lemma {:induction false} PrintedStart(tokens: seq<Token>, i: nat)
    requires i <= |tokens| && (i > 0 || |tokens| == 0 || !tokens[0].Sequence?)
    ensures PrintFrom(tokens, i) == "" || PrintFrom(tokens, i)[0] == '{'
  {
  }

  /** What follows a mode tag does not start with a closing brace. */
  lemma {:induction false} EscapeStart(t: Token, i: nat)
    requires TokenOk(t, i) && IsText(t) && !(i == 0 && t.Sequence?)
    ensures Escape(t.text) != "" && Escape(t.text)[0] != '}'
  {
  }

  lemma {:induction false} PrintStep(tokens: seq<Token>, i: nat)
    requires i < |tokens|
    ensures var t := tokens[i];
            var body := if IsText(t) then Escape(t.text) else "";
            PrintFrom(tokens, i)
            == (if i == 0 && t.Sequence? then "" else "{" + TagOf(t) + "}") + (body + PrintFrom(tokens, i + 1))
  {
    hide TagOf, Escape;
  }

  /** A printed token moves into the scanner's state: text into the buffer, a key behind the flushed buffer. */
  lemma {:induction false} ScanToken(t: Token, i: nat, rest: string, unicode: bool, buffer: string, done: seq<Token>)
    requires TokenOk(t, i) && (rest == "" || rest[0] != '}') && !(i == 0 && t.Sequence?)
    ensures var body := if IsText(t) then Escape(t.text) else "";
            var flushed := Flush(done, buffer, unicode);
            Scan("{" + TagOf(t) + "}" + (body + rest), unicode, buffer, done)
            == if IsText(t) then Scan(rest, t.Unicode?, t.text, flushed) else Scan(rest, unicode, "", flushed + [t])
  {
    hide Scan, TagOf, Flush;
    var flushed := Flush(done, buffer, unicode);
    if IsText(t) {
      EscapeStart(t, i);
      ScanPrintedTag(t, Escape(t.text) + rest, unicode, buffer, done, i);
      ScanEscaped(t.text, rest, t.Unicode?, "", flushed);
      assert "" + t.text == t.text;
    } else {
      ScanPrintedTag(t, rest, unicode, buffer, done, i);
      assert "" + rest == rest;
    }
  }

  /** Scanning the printed rest behind the first `i` tokens returns the whole list. */
  lemma {:induction false} ScanPrinted(tokens: seq<Token>, i: nat, unicode: bool, buffer: string, done: seq<Token>)
    requires WellFormed(tokens) && i <= |tokens|
    requires Flush(done, buffer, unicode) == tokens[..i]
    requires i == 0 ==> buffer == "" && !unicode
    ensures Scan(PrintFrom(tokens, i), unicode, buffer, done) == Ok(tokens)
    decreases |tokens| - i
  {
    if i == |tokens| {
      assert tokens[..i] == tokens;
    } else {
      var t, rest := tokens[i], PrintFrom(tokens, i + 1);
      assert tokens[..i + 1] == tokens[..i] + [t];
      assert TokenOk(t, i);
      PrintedStart(tokens, i + 1);
      PrintStep(tokens, i);
      hide Scan, TagOf, Escape, PrintFrom, WellFormed;
      if i == 0 && t.Sequence? {
        assert "" + (Escape(t.text) + rest) == Escape(t.text) + rest && "" + t.text == t.text;
        ScanEscaped(t.text, rest, false, "", done);
        ScanPrinted(tokens, 1, false, t.text, done);
      } else {
        ScanToken(t, i, rest, unicode, buffer, done);
        if IsText(t) {
          ScanPrinted(tokens, i + 1, t.Unicode?, t.text, tokens[..i]);
        } else {
          ScanPrinted(tokens, i + 1, unicode, "", tokens[..i + 1]);
        }
      }
    }
  }

  /** Tokenizing what the printer prints gives the tokens back. */
  lemma {:induction false} PrintRoundTrip(tokens: seq<Token>)
    requires WellFormed(tokens)
    ensures Tokenized(Print(tokens)) == Ok(tokens)
  {
    assert tokens[..0] == [];
    ScanPrinted(tokens, 0, false, "", []);
  }

  /** The tokenizer returns exactly the well-formed token lists. */
  lemma {:induction false} ExactImage(tokens: seq<Token>)
    ensures (exists input :: Tokenized(input) == Ok(tokens)) <==> WellFormed(tokens)
  {
    if input :| Tokenized(input) == Ok(tokens) {
      ScanWellFormed(input, false, "", []);
    }
    if WellFormed(tokens) {
      PrintRoundTrip(tokens);
    }
  }

  // ----- the tokenizer as it runs -----

  /** The inner loop: reads a tag whose first character `first` is already consumed. */
  method ReadTagLoop(input: string, start: nat, first: char) returns (r: Result<(string, nat), ParseError>)
    requires start <= |input|
    ensures match ReadTag(input[start..], first, "")
            case Err(e) => r == Err(e)
            case Ok((tag, rest)) => r.Ok? && r.value.0 == tag && r.value.1 <= |input| && input[r.value.1..] == rest
    ensures r.Ok? ==> start < r.value.1 <= |input|
  {
    var tag, c, pos := "", first, start;
    while true
      invariant start <= pos <= |input|
      invariant ReadTag(input[start..], first, "") == ReadTag(input[pos..], c, tag)
      decreases |input| - pos
    {
      ghost var s, oldTag := input[pos..], tag;
      assert |s| > 1 ==> s[2..] == input[pos + 2..];
      assert |s| > 0 ==> s[1..] == input[pos + 1..];
      tag := tag + [c];
      if pos == |input| {
        return Err(UnmatchedOpen);
      }
      var next := input[pos];
      pos := pos + 1;
      if next == '{' {
        if pos < |input| && input[pos] == '{' {
          pos := pos + 1;
          c := '{';
        } else {
          return Err(UnexpectedOpen);
        }
      } else if next == '}' {
        if pos < |input| && input[pos] == '}' {
          pos := pos + 1;
          c := '}';
        } else {
          return Ok((tag, pos));
        }
      } else {
        c := next;
      }
    }
  }

  method Tokenize(input: string) returns (r: Result<seq<Token>, ParseError>)
    ensures r == Tokenized(input)
  {
    var unicode := false;
    var tokens: seq<Token> := [];
    var buffer := "";
    var pos := 0;
    while pos < |input|
      invariant 0 <= pos <= |input|
      invariant Tokenized(input) == Scan(input[pos..], unicode, buffer, tokens)
      decreases |input| - pos
    {
      ghost var s := input[pos..];
      assert |s| > 1 ==> s[2..] == input[pos + 2..];
      assert s[1..] == input[pos + 1..];
      var c := input[pos];
      pos := pos + 1;
      if c == '{' {
        if pos == |input| {
          return Err(UnmatchedOpen);
        }
        var first := input[pos];
        pos := pos + 1;
        if first == '{' {
          buffer := buffer + ['{'];
        } else {
          tokens := Flush(tokens, buffer, unicode);
          buffer := "";
          var tagged := ReadTagLoop(input, pos, first);
          if tagged.Err? {
            return Err(tagged.error);
          }
          var tag := tagged.value.0;
          pos := tagged.value.1;
          match EffectOf(tag) {
            case Some(Mode(u)) => unicode := u;
            case Some(Press(t)) => tokens := tokens + [t];
            case None => return Err(UnknownTag(tag));
          }
        }
      } else if c == '}' {
        if pos < |input| && input[pos] == '}' {
          pos := pos + 1;
          buffer := buffer + ['}'];
        } else {
          return Err(UnmatchedClose);
        }
      } else {
        buffer := buffer + [c];
      }
    }
    assert input[pos..] == "";
    return Ok(Flush(tokens, buffer, unicode));
  }

  // ----- eval -----

  /** What the keyboard is asked to do. */
  datatype Stroke = Click(key: Key) | Type(text: string) | Up(key: Key) | Down(key: Key)

  function Clicks(text: string): seq<Stroke> {
    seq(|text|, i requires 0 <= i < |text| => Click(Layout(text[i])))
  }

  function StrokesOf(t: Token): seq<Stroke> {
    match t
    case Sequence(text) => Clicks(text)
    case Unicode(text) => [Type(text)]
    case KeyUp(key) => [Up(key)]
    case KeyDown(key) => [Down(key)]
  }

  function Strokes(tokens: seq<Token>): seq<Stroke> {
    if tokens == [] then [] else Strokes(tokens[..|tokens| - 1]) + StrokesOf(tokens[|tokens| - 1])
  }

  /** A text with an error presses nothing; otherwise every token is played in order. */
  method Eval(input: string) returns (r: Result<(), ParseError>, strokes: seq<Stroke>)
    ensures match Tokenized(input)
            case Err(e) => r == Err(e) && strokes == []
            case Ok(tokens) => r == Ok(()) && strokes == Strokes(tokens)
  {
    strokes := [];
    var result := Tokenize(input);
    if result.Err? {
      return Err(result.error), [];
    }
    var tokens := result.value;
    for i := 0 to |tokens|
      invariant strokes == Strokes(tokens[..i])
    {
      assert tokens[..i + 1][..i] == tokens[..i];
      match tokens[i] {
        case Sequence(text) =>
          ghost var before := strokes;
          for k := 0 to |text|
            invariant strokes == before + Clicks(text)[..k]
          {
            strokes := strokes + [Click(Layout(text[k]))];
          }
        case Unicode(text) => strokes := strokes + [Type(text)];
        case KeyUp(key) => strokes := strokes + [Up(key)];
        case KeyDown(key) => strokes := strokes + [Down(key)];
      }
    }
    assert tokens[..|tokens|] == tokens;
    return Ok(()), strokes;
  }

  /** What an input presses, if it is accepted. */
  function Pressed(input: string): Result<seq<Stroke>, ParseError> {
    match Tokenized(input)
    case Err(e) => Err(e)
    case Ok(tokens) => Ok(Strokes(tokens))
  }

  /** One click per character, from `at` on. */
  predicate ClicksAt(strokes: seq<Stroke>, at: nat, text: string) {
    at + |text| <= |strokes| && forall i :: 0 <= i < |text| ==> strokes[at + i] == Click(Layout(text[i]))
  }

  lemma {:induction false} StrokesSnoc(tokens: seq<Token>, t: Token)
    ensures Strokes(tokens + [t]) == Strokes(tokens) + StrokesOf(t)
  {
    assert (tokens + [t])[..|tokens|] == tokens;
  }

  /** Any text at all can be typed: escaped, it comes out as one click per character. */
  lemma {:induction false} EscapedTextIsClicked(text: string)
    ensures var r := Pressed(Escape(text));
            r.Ok? && |r.value| == |text| && ClicksAt(r.value, 0, text)
  {
    ScanEscaped(text, "", false, "", []);
    assert Escape(text) + "" == Escape(text) && "" + text == text;
    FlushedText([], text);
  }

  lemma {:induction false} NothingFlushed(tokens: seq<Token>)
    ensures Flush(tokens, "", false) == tokens
  {
  }

  lemma {:induction false} NoStrokes()
    ensures Strokes([]) == []
  {
  }

  lemma {:induction false} FlushedText(tokens: seq<Token>, text: string)
    ensures Strokes(Flush(tokens, text, false)) == Strokes(tokens) + Clicks(text)
    ensures Strokes(Flush(tokens, text, true)) == Strokes(tokens) + if text == "" then [] else [Type(text)]
  {
    if text == "" {
      assert Strokes(tokens) + [] == Strokes(tokens) && Clicks(text) == [];
    } else {
      StrokesSnoc(tokens, Sequence(text));
      StrokesSnoc(tokens, Unicode(text));
    }
  }

  lemma {:induction false} EscapedStart(text: string, tail: string)
    requires (text == "" || text[0] != '}') && (tail == "" || tail[0] != '}')
    ensures var s := Escape(text) + tail; s == "" || s[0] != '}'
  {
  }

  // A tag in front of a text that starts with a closing brace.

  lemma {:induction false} ReadTagExtends(s: string, c: char, tag: string)
    ensures ReadTag(s, c, tag).Ok? ==> tag + [c] <= ReadTag(s, c, tag).value.0
    decreases |s|
  {
    if s != "" {
      if s[0] == '{' || s[0] == '}' {
        if |s| > 1 && s[1] == s[0] {
          ReadTagExtends(s[2..], s[0], tag + [c]);
        }
      } else {
        ReadTagExtends(s[1..], s[0], tag + [c]);
      }
    }
  }

  lemma {:induction false} ReadDoubledBrace(t: string, c: char, tag: string, rest: string)
    requires NoBraces(t)
    ensures ReadTag(t + "}}" + rest, c, tag) == ReadTag(rest, '}', tag + [c] + t)
    decreases |t|
  {
    var s := t + "}}" + rest;
    if t == "" {
      assert s[0] == '}' && s[1] == '}' && s[2..] == rest;
      assert tag + [c] + t == tag + [c];
    } else {
      assert s == [t[0]] + (t[1..] + "}}" + rest);
      assert t[0] in t && forall x <- t[1..] :: x in t;
      ReadDoubledBrace(t[1..], t[0], tag + [c], rest);
      assert tag + [c] + [t[0]] + t[1..] == tag + [c] + t;
    }
  }

  lemma {:induction false} BracedTagUnknown(tag: string)
    requires '}' in tag
    ensures EffectOf(tag) == None
  {
  }

  /** The doubled brace behind a tag becomes a part of it, and no tag has one. */
  lemma {:induction false} BraceJoinsTag(tag: string, rest: string, unicode: bool, buffer: string, tokens: seq<Token>)
    requires NoBraces(tag) && |tag| > 1
    ensures Scan("{" + tag + "}" + ("}}" + rest), unicode, buffer, tokens).Err?
  {
    hide EffectOf, Flush;
    var s := "{" + tag + "}" + ("}}" + rest);
    assert tag[0] in tag && forall x <- tag[1..] :: x in tag;
    assert s[0] == '{' && s[1] == tag[0] && s[2..] == tag[1..] + "}}" + ("}" + rest);
    ReadDoubledBrace(tag[1..], tag[0], "", "}" + rest);
    var read := "" + [tag[0]] + tag[1..];
    ReadTagExtends("}" + rest, '}', read);
    var r := ReadTag("}" + rest, '}', read);
    if r.Ok? {
      assert r.value.0[|read|] == '}';
      BracedTagUnknown(r.value.0);
    }
  }

  /** Names that tags give to keys. */
  predicate Modifier(name: string, key: Key) {
    || (name == "SHIFT" && key == Shift) || (name == "CTRL" && key == Control)
    || (name == "META" && key == Meta) || (name == "ALT" && key == Alt)
  }

  lemma {:induction false} ModifierTags(name: string, key: Key)
    requires Modifier(name, key)
    ensures TagOf(KeyDown(key)) == "+" + name && TagOf(KeyUp(key)) == "-" + name
  {
  }

  /**
   A key held over a text: its "+" tag, the escaped text and its "-" tag press the key down, click each character and
   let the key up, if and only if the text does not start with a closing brace. If it does, its doubled brace is read as
   part of the tag, the input is refused, and nothing is pressed.
   */
  lemma {:induction false} ModifierIsHeld(name: string, key: Key, text: string)
    requires Modifier(name, key)
    ensures var r := Pressed("{+" + name + "}" + (Escape(text) + ("{-" + name + "}")));
            if text == "" || text[0] != '}' then
              && r.Ok? && |r.value| == |text| + 2
              && r.value[0] == Down(key) && ClicksAt(r.value, 1, text) && r.value[|text| + 1] == Up(key)
            else r.Err?
  {
    hide Scan, Escape, Strokes, Clicks, Flush, TagOf;
    var down, up := KeyDown(key), KeyUp(key);
    ModifierTags(name, key);
    NothingFlushed([]);
    var tail := "{-" + name + "}";
    assert "{" + TagOf(down) + "}" == "{+" + name + "}" && "{" + TagOf(up) + "}" == tail;
    var rest := Escape(text) + tail;
    if text == "" || text[0] != '}' {
      EscapedStart(text, tail);
      ScanPrintedTag(down, rest, false, "", [], 0);
      assert [] + [down] == [down];
      ScanEscaped(text, tail, false, "", [down]);
      assert tail + "" == tail && "" + text == text;
      ScanPrintedTag(up, "", false, text, [down], 0);
      HeldStrokes(key, text);
    } else {
      BraceStart(text, tail);
      assert "{" + ("+" + name) + "}" + rest == "{+" + name + "}" + rest;
      BraceJoinsTag("+" + name, Escape(text[1..]) + tail, false, "", []);
    }
  }

  lemma {:induction false} BraceStart(text: string, tail: string)
    requires text != "" && text[0] == '}'
    ensures Escape(text) + tail == "}}" + (Escape(text[1..]) + tail)
  {
  }

  lemma {:induction false} HeldStrokes(key: Key, text: string)
    ensures Scan("", false, "", Flush([KeyDown(key)], text, false) + [KeyUp(key)])
            == Ok(Flush([KeyDown(key)], text, false) + [KeyUp(key)])
    ensures Strokes(Flush([KeyDown(key)], text, false) + [KeyUp(key)]) == [Down(key)] + Clicks(text) + [Up(key)]
    ensures |Clicks(text)| == |text| && ClicksAt(Clicks(text), 0, text)
  {
    hide Flush, Strokes, ScanTag;
    NoStrokes();
    NothingFlushed(Flush([KeyDown(key)], text, false) + [KeyUp(key)]);
    StrokesSnoc([], KeyDown(key));
    assert [] + [KeyDown(key)] == [KeyDown(key)];
    FlushedText([KeyDown(key)], text);
    StrokesSnoc(Flush([KeyDown(key)], text, false), KeyUp(key));
  }

  /**
   Behind "{+UNICODE}" a text is typed as a whole, and behind "{-UNICODE}" characters are clicked again, if and only if
   neither text starts with a closing brace; otherwise the input is refused.
   */
  lemma {:induction false} UnicodeIsTyped(text: string, later: string)
    ensures var r := Pressed("{+UNICODE}" + (Escape(text) + ("{-UNICODE}" + (Escape(later) + ""))));
            var typed := if text == "" then 0 else 1;
            if (text == "" || text[0] != '}') && (later == "" || later[0] != '}') then
              && r.Ok? && |r.value| == typed + |later|
              && (text != "" ==> r.value[0] == Type(text)) && ClicksAt(r.value, typed, later)
            else r.Err?
  {
    hide Scan, Escape, Strokes, Clicks, Flush;
    NothingFlushed([]);
    var plain, rest := "{-UNICODE}" + (Escape(later) + ""), Escape(later) + "";
    if text == "" || text[0] != '}' {
      EscapedStart(text, plain);
      ScanModeTag(true, Escape(text) + plain, false, "", []);
      ScanEscaped(text, plain, true, "", []);
      assert "" + text == text;
      if later == "" || later[0] != '}' {
        EscapedStart(later, "");
        ScanModeTag(false, rest, true, text, []);
        ScanEscaped(later, "", false, "", Flush([], text, true));
        assert "" + later == later;
        TypedStrokes(text, later);
      } else {
        BraceStart(later, "");
        assert "{" + "-UNICODE" + "}" == "{-UNICODE}";
        BraceJoinsTag("-UNICODE", Escape(later[1..]) + "", true, text, []);
      }
    } else {
      BraceStart(text, plain);
      assert "{" + "+UNICODE" + "}" == "{+UNICODE}";
      BraceJoinsTag("+UNICODE", Escape(text[1..]) + plain, false, "", []);
    }
  }

  lemma {:induction false} ScanModeTag(unicode: bool, rest: string, before: bool, buffer: string, tokens: seq<Token>)
    requires rest == "" || rest[0] != '}'
    ensures Scan((if unicode then "{+UNICODE}" else "{-UNICODE}") + rest, before, buffer, tokens)
            == Scan(rest, unicode, "", Flush(tokens, buffer, before))
  {
    hide Scan, Flush;
    var t := if unicode then Unicode("a") else Sequence("a");
    ScanPrintedTag(t, rest, before, buffer, tokens, 1);
    assert "{" + TagOf(t) + "}" == if unicode then "{+UNICODE}" else "{-UNICODE}";
  }

  lemma {:induction false} TypedStrokes(text: string, later: string)
    ensures var tokens := Flush(Flush([], text, true), later, false);
            && Scan("", false, later, Flush([], text, true)) == Ok(tokens)
            && Strokes(tokens) == (if text == "" then [] else [Type(text)]) + Clicks(later)
    ensures |Clicks(later)| == |later| && ClicksAt(Clicks(later), 0, later)
  {
    hide Flush, Strokes, ScanTag;
    NoStrokes();
    FlushedText([], text);
    FlushedText(Flush([], text, true), later);
    assert [] + (if text == "" then [] else [Type(text)]) == if text == "" then [] else [Type(text)];
  }

  /** A tag as it is written: braces behind its first character are doubled. */
  function Tagged(tag: string): string
    requires tag != "" && tag[0] != '{'
  {
    "{" + [tag[0]] + Escape(tag[1..])
  }

  lemma {:induction false} ReadTagChar(x: char, s: string, c: char, tag: string)
    ensures ReadTag(EscapeChar(x) + s, c, tag) == ReadTag(s, x, tag + [c])
  {
    var all := EscapeChar(x) + s;
    assert all[|EscapeChar(x)|..] == s;
  }

  lemma {:induction false} ReadEscaped(u: string, s: string, c: char, tag: string)
    ensures ReadTag(Escape(u) + s, c, tag) ==
            if u == "" then ReadTag(s, c, tag) else ReadTag(s, u[|u| - 1], tag + [c] + u[..|u| - 1])
    decreases |u|
  {
    hide ReadTag, EscapeChar;
    if u == "" {
      assert Escape(u) + s == s;
    } else {
      var x, later := u[0], u[1..];
      assert Escape(u) + s == EscapeChar(x) + (Escape(later) + s);
      ReadTagChar(x, Escape(later) + s, c, tag);
      ReadEscaped(later, s, x, tag + [c]);
      if later == "" {
        assert u[..|u| - 1] == "" && tag + [c] + "" == tag + [c];
      } else {
        assert u[..|u| - 1] == [x] + later[..|later| - 1];
        assert tag + [c] + [x] + later[..|later| - 1] == tag + [c] + ([x] + later[..|later| - 1]);
      }
    }
  }

  lemma {:induction false} ReadTagEnds(rest: string, c: char, tag: string)
    ensures ReadTag("", c, tag) == Err(UnmatchedOpen)
    ensures rest == "" || rest[0] != '{' ==> ReadTag("{" + rest, c, tag) == Err(UnexpectedOpen)
    ensures rest == "" || rest[0] != '}' ==> ReadTag("}" + rest, c, tag) == Ok((tag + [c], rest))
  {
    assert ("}" + rest)[1..] == rest;
  }

  lemma {:induction false} ReadWritten(tag: string, rest: string)
    requires tag != ""
    ensures ReadTag(Escape(tag[1..]), tag[0], "") == Err(UnmatchedOpen)
    ensures rest == "" || rest[0] != '{' ==>
              ReadTag(Escape(tag[1..]) + ("{" + rest), tag[0], "") == Err(UnexpectedOpen)
    ensures rest == "" || rest[0] != '}' ==> ReadTag(Escape(tag[1..]) + ("}" + rest), tag[0], "") == Ok((tag, rest))
  {
    hide ReadTag, Escape;
    var u := tag[1..];
    ReadEscaped(u, "", tag[0], "");
    ReadEscaped(u, "{" + rest, tag[0], "");
    ReadEscaped(u, "}" + rest, tag[0], "");
    assert Escape(u) + "" == Escape(u);
    var c, before := if u == "" then tag[0] else u[|u| - 1], if u == "" then "" else "" + [tag[0]] + u[..|u| - 1];
    ReadTagEnds(rest, c, before);
    assert before + [c] == tag;
  }

  /**
   What is refused, and why: behind any escaped text, a tag that nothing closes, a lone open brace inside a tag, a
   closing brace without an open one, and a tag that is none of the ten.
   */
  lemma {:induction false} MalformedIsRefused(text: string, tag: string, rest: string)
    requires tag != "" && tag[0] != '{'
    ensures Pressed(Escape(text) + "{") == Err(UnmatchedOpen)
    ensures Pressed(Escape(text) + Tagged(tag)) == Err(UnmatchedOpen)
    ensures rest == "" || rest[0] != '{' ==> Pressed(Escape(text) + (Tagged(tag) + ("{" + rest))) == Err(UnexpectedOpen)
    ensures rest == "" || rest[0] != '}' ==>
              && Pressed(Escape(text) + ("}" + rest)) == Err(UnmatchedClose)
              && (tag !in {"+UNICODE", "-UNICODE", "+SHIFT", "-SHIFT", "+CTRL", "-CTRL", "+META", "-META", "+ALT",
                           "-ALT"} ==>
                  Pressed(Escape(text) + (Tagged(tag) + ("}" + rest))) == Err(UnknownTag(tag)))
  {
    hide Escape, Scan, Strokes, Tagged;
    assert "" + text == text;
    ScanEscaped(text, "{", false, "", []);
    ScanEscaped(text, Tagged(tag), false, "", []);
    ScanEscaped(text, Tagged(tag) + ("{" + rest), false, "", []);
    ScanEscaped(text, "}" + rest, false, "", []);
    ScanEscaped(text, Tagged(tag) + ("}" + rest), false, "", []);
    LoneBraces(text, rest);
    BadTags(text, tag, rest);
  }

  lemma {:induction false} LoneBraces(text: string, rest: string)
    ensures Scan("{", false, text, []) == Err(UnmatchedOpen)
    ensures rest == "" || rest[0] != '}' ==> Scan("}" + rest, false, text, []) == Err(UnmatchedClose)
  {
  }

  lemma {:induction false} BadTags(text: string, tag: string, rest: string)
    requires tag != "" && tag[0] != '{'
    ensures Scan(Tagged(tag), false, text, []) == Err(UnmatchedOpen)
    ensures rest == "" || rest[0] != '{' ==>
              Scan(Tagged(tag) + ("{" + rest), false, text, []) == Err(UnexpectedOpen)
    ensures (rest == "" || rest[0] != '}') && EffectOf(tag) == None ==>
              Scan(Tagged(tag) + ("}" + rest), false, text, []) == Err(UnknownTag(tag))
  {
    hide Flush, EffectOf, ReadTag, Escape;
    var open, u := Tagged(tag), Escape(tag[1..]);
    assert open[2..] == u && (open + ("{" + rest))[2..] == u + ("{" + rest);
    assert (open + ("}" + rest))[2..] == u + ("}" + rest);
    ReadWritten(tag, rest);
  }
}
