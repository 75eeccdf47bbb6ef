/** Lexical layer of Json::Reader.  A scanning routine is specified by how much
    of the unread text it consumes; the class in JsonReader moves the cursor. */
module JsonScanner {
  import opened Slices

  datatype TokenType =
    | EndOfStream | ObjectBegin | ObjectEnd | ArrayBegin | ArrayEnd
    | StringText | Number | True | False | NullWord
    | ArraySeparator | MemberSeparator | Comment | Error

  datatype Token = Token(kind: TokenType, start: nat, end: nat)

  /** A scan that consumes `length` characters and may report failure. */
  datatype Run = Run(length: nat, ok: bool)

  const NUL := 0 as char

  predicate IsSpace(c: char) { c == ' ' || c == '\t' || c == '\r' || c == '\n' }
  predicate IsDigit(c: char) { '0' <= c <= '9' }
  predicate StartsWith(s: string, p: string) { |p| <= |s| && s[..|p|] == p }

  predicate IsPunctuation(k: TokenType) {
    k.ObjectBegin? || k.ObjectEnd? || k.ArrayBegin? || k.ArrayEnd? || k.ArraySeparator? || k.MemberSeparator?
  }

  /** skipSpaces */
  function SpaceRun(s: string): (n: nat)
    ensures n <= |s|
  {
    if s == "" || !IsSpace(s[0]) then 0 else 1 + SpaceRun(s[1..])
  }

  function DigitRun(s: string): (n: nat)
    ensures n <= |s|
  {
    if s == "" || !IsDigit(s[0]) then 0 else 1 + DigitRun(s[1..])
  }

  /** Optional '.' and the digits after it. */
  function FractionRun(s: string): (n: nat)
    ensures n <= |s|
  {
    if s != "" && s[0] == '.' then 1 + DigitRun(s[1..]) else 0
  }

  /** Optional exponent marker, sign and digits. */
  function ExponentRun(s: string): (n: nat)
    ensures n <= |s|
  {
    if s == "" || (s[0] != 'e' && s[0] != 'E') then 0
    else if |s| > 1 && (s[1] == '+' || s[1] == '-') then 2 + DigitRun(s[2..])
    else 1 + DigitRun(s[1..])
  }

  /** readNumber, after its first character. */
  function NumberRun(s: string): (n: nat)
    ensures n <= |s|
  {
    var d := DigitRun(s);
    var f := d + FractionRun(s[d..]);
    f + ExponentRun(s[f..])
  }

  /** readString, after the opening quote. */
  function StringRun(s: string): (r: Run)
    ensures r.length <= |s|
    ensures r.ok ==> r.length > 0 && s[r.length - 1] == '"'
  {
    if s == "" then Run(0, false)
    else if s[0] == '\\' then
      if |s| == 1 then Run(1, false)
      else var r := StringRun(s[2..]); Run(2 + r.length, r.ok)
    else if s[0] == '"' then Run(1, true)
    else var r := StringRun(s[1..]); Run(1 + r.length, r.ok)
  }

  /** readCStyleComment, after the opening star. */
  function CStyleRun(s: string): (r: Run)
    ensures r.length <= |s|
  {
    if s == "" then Run(0, false)
    else if |s| == 1 then Run(1, s[0] == '/')
    else if s[0] == '*' && s[1] == '/' then Run(2, true)
    else var r := CStyleRun(s[1..]); Run(1 + r.length, r.ok)
  }

  /** readCppStyleComment, after the second slash. */
  function LineRun(s: string): (n: nat)
    ensures n <= |s|
  {
    if s == "" then 0
    else if s[0] == '\n' then 1
    else if s[0] == '\r' then if |s| > 1 && s[1] == '\n' then 2 else 1
    else 1 + LineRun(s[1..])
  }

  /** readComment, after the first slash. */
  function CommentRun(s: string): (r: Run)
    ensures r.length <= |s|
  {
    if s == "" then Run(0, false)
    else if s[0] == '*' then var r := CStyleRun(s[1..]); Run(1 + r.length, r.ok)
    else if s[0] == '/' then Run(1 + LineRun(s[1..]), true)
    else Run(1, false)
  }

  /** match: the rest of a word, consumed only when all of it is there. */
  function WordRun(s: string, word: string): (r: Run)
    ensures r.length <= |s|
  {
    if StartsWith(s, word) then Run(|word|, true) else Run(0, false)
  }

  datatype Lexeme = Lexeme(kind: TokenType, length: nat)

  /** The switch of readToken, on text that does not begin with a space. */
  function Lex(s: string): (l: Lexeme)
    ensures l.length <= |s|
    ensures l.length == 0 ==> l.kind == EndOfStream
    ensures IsPunctuation(l.kind) ==> l.length == 1
  {
    if s == "" then Lexeme(EndOfStream, 0)
    else
      match s[0]
      case '{' => Lexeme(ObjectBegin, 1)
      case '}' => Lexeme(ObjectEnd, 1)
      case '[' => Lexeme(ArrayBegin, 1)
      case ']' => Lexeme(ArrayEnd, 1)
      case ',' => Lexeme(ArraySeparator, 1)
      case ':' => Lexeme(MemberSeparator, 1)
      case '"' => Finish(StringText, StringRun(s[1..]))
      case '/' => Finish(Comment, CommentRun(s[1..]))
      case 't' => Finish(True, WordRun(s[1..], "rue"))
      case 'f' => Finish(False, WordRun(s[1..], "alse"))
      case 'n' => Finish(NullWord, WordRun(s[1..], "ull"))
      case c =>
        if IsDigit(c) || c == '-' then Lexeme(Number, 1 + NumberRun(s[1..]))
        else if c == NUL then Lexeme(EndOfStream, 1)
        else Lexeme(Error, 1)
  }

  function Finish(kind: TokenType, run: Run): Lexeme {
    Lexeme(if run.ok then kind else Error, 1 + run.length)
  }

  /** readToken from a cursor position; the token's end is the new cursor. */
  function ReadToken(doc: string, cur: nat): (t: Token)
    requires cur <= |doc|
    ensures cur <= t.start <= t.end <= |doc|
    ensures t.kind != EndOfStream ==> t.start < t.end
    ensures IsPunctuation(t.kind) ==> t.end == t.start + 1
  {
    var start := cur + SpaceRun(doc[cur..]);
    var l := Lex(doc[start..]);
    Token(l.kind, start, start + l.length)
  }

  // ------------------------------------------------------- token streams

  /** One token as the grammar sees it: its kind and its text. */
  datatype Word = Word(kind: TokenType, text: string)

  /** What one readToken takes off a text. */
  datatype Cut = End | Cut(word: Word, rest: string)

  function Next(s: string): (c: Cut)
    ensures c.Cut? ==> |c.rest| < |s|
  {
    var k := SpaceRun(s);
    var l := Lex(s[k..]);
    if l.kind == EndOfStream then End else Cut(Word(l.kind, s[k..k + l.length]), s[k + l.length..])
  }

  /** The tokens of a text up to the end-of-stream token. */
  function Tokens(s: string): seq<Word>
    decreases |s|
  {
    match Next(s)
    case End => []
    case Cut(word, rest) => [word] + Tokens(rest)
  }

  lemma {:induction false} NextIsReadToken(doc: string, cur: nat)
    requires cur <= |doc|
    ensures var t := ReadToken(doc, cur);
            Next(doc[cur..]) == if t.kind == EndOfStream then End
                                else Cut(Word(t.kind, doc[t.start..t.end]), doc[t.end..])
  {
    hide Lex, SpaceRun;
    var s := doc[cur..];
    var k := SpaceRun(s);
    DropDrop(doc, cur, k);
    var l := Lex(s[k..]);
    DropSlice(doc, cur, k, k + l.length);
    DropDrop(doc, cur, k + l.length);
  }

  /** readToken hands out the head of the token stream and leaves its tail. */
  lemma {:induction false} ReadTokenIsHead(doc: string, cur: nat)
    requires cur <= |doc|
    ensures var t := ReadToken(doc, cur);
            if t.kind == EndOfStream then Tokens(doc[cur..]) == []
            else Tokens(doc[cur..]) == [Word(t.kind, doc[t.start..t.end])] + Tokens(doc[t.end..])
  {
    NextIsReadToken(doc, cur);
  }

  /** Leading white space is invisible. */
  lemma {:induction false} SpacesVanish(w: string, s: string)
    requires forall c :: c in w ==> IsSpace(c)
    ensures Tokens(w + s) == Tokens(s)
  {
    NextSkipsSpaces(w, s);
  }

  lemma {:induction false} NextSkipsSpaces(w: string, s: string)
    requires forall c :: c in w ==> IsSpace(c)
    ensures Next(w + s) == Next(s)
  {
    SpaceRunPrefix(w, s);
    NextAt(w + s, |w|, s);
  }

  /** Next on a text whose blanks reach at least up to a suffix. */
  lemma {:induction false} NextAt(t: string, n: nat, s: string)
    requires n <= |t| && s == t[n..] && SpaceRun(t) == n + SpaceRun(s)
    ensures Next(t) == Next(s)
  {
    hide Lex, SpaceRun, IsSpace;
    var k := SpaceRun(s);
    DropDrop(t, n, k);
    var l := Lex(s[k..]);
    DropSlice(t, n, k, k + l.length);
    DropDrop(t, n, k + l.length);
  }

  lemma {:induction false} SpaceRunPrefix(w: string, s: string)
    requires forall c :: c in w ==> IsSpace(c)
    ensures SpaceRun(w + s) == |w| + SpaceRun(s)
  {
    if w == "" {
      assert w + s == s;
    } else {
      assert (w + s)[1..] == w[1..] + s;
      assert w[0] in w;
      SpaceRunPrefix(w[1..], s);
    }
  }

  /** A text that lexes as one token when followed by `rest`. */
  predicate IsToken(kind: TokenType, text: string, rest: string) {
    && text != "" && !IsSpace(text[0]) && kind != EndOfStream
    && Lex(text + rest) == Lexeme(kind, |text|)
  }

  lemma TokenInFront(kind: TokenType, text: string, rest: string)
    requires IsToken(kind, text, rest)
    ensures Tokens(text + rest) == [Word(kind, text)] + Tokens(rest)
  {
    var s := text + rest;
    assert SpaceRun(s) == 0;
    assert s[0..] == s;
    assert s[0..|text|] == text && s[|text|..] == rest;
  }

  /** The text after an integer must not extend the number. */
  predicate EndsNumber(rest: string) {
    rest == "" || !(IsDigit(rest[0]) || rest[0] == '.' || rest[0] == 'e' || rest[0] == 'E')
  }

  lemma {:induction false} DigitRunStops(digits: string, rest: string)
    requires forall c :: c in digits ==> IsDigit(c)
    requires rest == "" || !IsDigit(rest[0])
    ensures DigitRun(digits + rest) == |digits|
  {
    if digits == "" {
      assert digits + rest == rest;
    } else {
      assert (digits + rest)[1..] == digits[1..] + rest;
      assert digits[0] in digits;
      DigitRunStops(digits[1..], rest);
    }
  }

  /** An optional minus and digits lex as one number token. */
  lemma IntegerIsToken(text: string, rest: string)
    requires text != "" && (IsDigit(text[0]) || text[0] == '-')
    requires forall c :: c in text[1..] ==> IsDigit(c)
    requires EndsNumber(rest)
    ensures IsToken(Number, text, rest)
  {
    var s := text + rest;
    assert s[1..] == text[1..] + rest;
    DigitRunStops(text[1..], rest);
    assert s[1..][|text| - 1..] == rest;
  }
}
