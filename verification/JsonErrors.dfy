/** What the tokens look like, and what the errors of a parse say: each names a token of the
    document and what is wrong with it. */
module JsonErrors {
  import opened JsonAccepted
  import opened JsonNumber
  import opened JsonParse
  import opened JsonScanner
  import opened JsonString
  import opened JsonValue
  import opened JsonWriter
  import opened Options
  import opened Slices

  // ---------------------------------------------------------------- tokens

  predicate BlankCode(c: char) { c as nat in {0x20, 0x09, 0x0A, 0x0D} }

  /** The text that a kind of token has. */
  predicate Spelt(kind: TokenType, s: string) {
    match kind
    case ObjectBegin => s == "{"
    case ObjectEnd => s == "}"
    case ArrayBegin => s == "["
    case ArrayEnd => s == "]"
    case ArraySeparator => s == ","
    case MemberSeparator => s == ":"
    case True => s == "true"
    case False => s == "false"
    case NullWord => s == "null"
    case StringText => |s| >= 2 && s[0] == '"' && s[|s| - 1] == '"'
    case Number => s != "" && (0x30 <= s[0] as nat <= 0x39 || s[0] == '-')
    case Comment => |s| >= 2 && s[0] == '/' && (s[1] == '/' || s[1] == '*')
    case EndOfStream => s == "" || s == [0 as char]
    case Error => s != ""
  }

  /** A token begins at the first character that is no blank and looks like its kind; only
      the end of the document is empty. */
  lemma {:induction false} TokenForm(doc: string, cur: nat)
    requires cur <= |doc|
    ensures var t := ReadToken(doc, cur);
            && (forall i :: cur <= i < t.start ==> BlankCode(doc[i]))
            && (t.start < |doc| ==> !BlankCode(doc[t.start]))
            && Spelt(t.kind, doc[t.start..t.end]) && (t.start == t.end ==> t.end == |doc|)
  {
    hide *;
    BlanksInFront(doc, cur);
    TokenIsLexeme(doc, cur);
    LexForm(doc[ReadToken(doc, cur).start..]);
  }

  lemma {:induction false} TokenIsLexeme(doc: string, cur: nat)
    requires cur <= |doc|
    ensures var t := ReadToken(doc, cur); var l := Lex(doc[t.start..]);
            && t.start == cur + SpaceRun(doc[cur..]) && t.kind == l.kind && t.end == t.start + l.length
            && doc[t.start..][..l.length] == doc[t.start..t.end] && (l.length == 0 && doc[t.start..] == "" ==> t.end == |doc|)
  {
    hide Lex, SpaceRun;
    var t := ReadToken(doc, cur);
    assert doc[t.start..][..t.end - t.start] == doc[t.start..t.end];
  }

  lemma {:induction false} BlanksInFront(doc: string, cur: nat)
    requires cur <= |doc|
    ensures var start := cur + SpaceRun(doc[cur..]);
            (forall i :: cur <= i < start ==> BlankCode(doc[i])) && (start < |doc| ==> !BlankCode(doc[start]))
  {
    var s := doc[cur..];
    BlankRun(s);
    hide SpaceRun, BlankCode;
    forall i | cur <= i < cur + SpaceRun(s) ensures BlankCode(doc[i]) { assert s[i - cur] == doc[i]; }
    if SpaceRun(s) < |s| { assert s[SpaceRun(s)] == doc[cur + SpaceRun(s)]; }
  }

  lemma {:induction false} BlankRun(s: string)
    ensures forall i :: 0 <= i < SpaceRun(s) ==> BlankCode(s[i])
    ensures SpaceRun(s) < |s| ==> !BlankCode(s[SpaceRun(s)])
  {
    if s != "" && IsSpace(s[0]) {
      BlankRun(s[1..]);
      assert forall i :: 1 <= i < SpaceRun(s) ==> s[i] == s[1..][i - 1];
    }
  }

  lemma {:induction false} LexForm(s: string)
    ensures Spelt(Lex(s).kind, s[..Lex(s).length]) && (Lex(s).length == 0 ==> s == "")
  {
    hide StringRun, CStyleRun, LineRun, NumberRun;
    if s != "" && s[0] == 't' { WordForm(s, "true"); }
    if s != "" && s[0] == 'f' { WordForm(s, "false"); }
    if s != "" && s[0] == 'n' { WordForm(s, "null"); }
    if s != "" && s[0] == '"' { StringForm(s); }
  }

  lemma WordForm(s: string, word: string)
    requires s != "" && word != "" && s[0] == word[0]
    ensures WordRun(s[1..], word[1..]).ok ==> WordRun(s[1..], word[1..]).length == |word| - 1 && |word| <= |s| && s[..|word|] == word
  {
    if StartsWith(s[1..], word[1..]) {
      assert s[..|word|] == [s[0]] + s[1..][..|word| - 1];
      assert word == [word[0]] + word[1..];
    }
  }

  lemma StringForm(s: string)
    requires s != "" && s[0] == '"'
    ensures var r := StringRun(s[1..]); r.ok ==> r.length > 0 && s[r.length] == '"'
  {
    hide StringRun;
    var r := StringRun(s[1..]);
    if r.ok { assert s[1..][r.length - 1] == s[r.length]; }
  }

  // ---------------------------------------------------------------- errors

  /** What an error says of the token it names. */
  predicate Explained(src: Source, e: ErrorInfo) {
    var t := e.token;
    && t.start <= t.end <= |src.doc|
    && if e.message == RootNotContainer then t == Token(Error, 0, |src.doc|) && e.extra == None
       else
         && ReadToken(src.doc, t.start) == t
         && (!e.message.BadString? ==> e.extra == None)
         && match e.message
            case ValueExpected =>
              t.kind in {ObjectEnd, ArrayEnd, ArraySeparator, MemberSeparator, EndOfStream, Error}
              || (t.kind == Comment && !src.features.allowComments)
            case MissingColon => t.kind != MemberSeparator
            case MissingCommaOrBrace => t.kind !in {ObjectEnd, ArraySeparator, Comment}
            case MissingBraceOrName => t.kind != StringText
            case MissingCommaOrBracket => t.kind !in {ArraySeparator, ArrayEnd, Comment}
            case NotANumber => t.kind == Number && src.toDouble(src.doc[t.start..t.end]) == None
            case BadString(problem) =>
              t.kind == StringText && e.extra.Some? && e.extra.value > t.start
              && Unescape(Unquoted(src.doc[t.start..t.end])) == Bad(problem, e.extra.value - t.start - 1)
            case RootNotContainer => true
  }

  predicate Explains(o: Outcome, src: Source) { o.Done? ==> forall i :: 0 <= i < |o.errors| ==> Explained(src, o.errors[i]) }

  predicate StepExplains(s: Step, src: Source) { s.Return? ==> Explains(s.outcome, src) }

  /** Both token routines hand out a token of the document. */
  lemma {:induction false} TokensOfDocument(src: Source, cur: nat)
    requires cur <= |src.doc|
    ensures var t := NonComment(src.doc, cur); ReadToken(src.doc, t.start) == t
    ensures var t := ValueToken(src, cur); ReadToken(src.doc, t.start) == t && (t.kind == Comment ==> !src.features.allowComments)
    ensures var t := ReadToken(src.doc, cur); ReadToken(src.doc, t.start) == t
  {
    hide ReadToken, NonComment;
    StreamHead(src.doc, cur);
    var cs := CommentsSkipped(src.doc, cur);
  }

  lemma {:induction false} ValueExplains(src: Source, cur: nat, depth: int, slot: Value)
    requires cur <= |src.doc|
    ensures Explains(ReadValue(src, cur, depth, slot), src)
    decreases |src.doc| - cur, 1
  {
    hide ReadAt, ValueToken, Explained, ReadToken;
    if depth < STACK_LIMIT {
      var t := ValueToken(src, cur);
      TokensOfDocument(src, cur);
      if !DropsNull(src, t) { AtExplains(src, t, depth, slot); }
    }
  }

  lemma {:induction false} AtExplains(src: Source, t: Token, depth: int, slot: Value)
    requires t.start <= t.end <= |src.doc| && (t.kind != EndOfStream ==> t.start < t.end)
    requires ReadToken(src.doc, t.start) == t && (t.kind == Comment ==> !src.features.allowComments)
    ensures Explains(ReadAt(src, t, depth, slot), src)
    decreases |src.doc| - t.start, 0
  {
    hide ReadArray, ReadMembers, ReadToken, Unescape, DecodeNumber;
    if t.kind == ArrayBegin {
      ArrayExplains(src, t.end, depth + 1, Value(Array([]), t.start, slot.limit));
      hide Explained;
    } else if t.kind == ObjectBegin {
      MembersExplain(src, t.end, depth + 1, Value(Object([]), t.start, slot.limit), "");
      hide Explained;
    } else {
      InnerIsUnquoted(src.doc, t);
    }
  }

  lemma {:induction false} ArrayExplains(src: Source, cur: nat, depth: int, arr: Value)
    requires cur <= |src.doc| && arr.payload.Array?
    ensures Explains(ReadArray(src, cur, depth, arr), src)
    decreases |src.doc| - cur, 4
  {
    hide ReadElements, ReadToken, Explained;
    var k := cur + SpaceRun(src.doc[cur..]);
    if !(k < |src.doc| && src.doc[k] == ']') { ElementsExplain(src, k, depth, arr, 0); }
  }

  lemma {:induction false} ElementsExplain(src: Source, cur: nat, depth: int, arr: Value, i: nat)
    requires cur <= |src.doc| && arr.payload.Array?
    ensures Explains(ReadElements(src, cur, depth, arr, i), src)
    decreases |src.doc| - cur, 3
  {
    hide ReadValue, ReadToken, NonComment, Put, Get, Recover, Explained, ElementEnd;
    var slot := Get(arr.payload.items, Index(i));
    ValueExplains(src, cur, depth, slot);
    var o := ReadValue(src, cur, depth, slot);
    if o.Done? { ElementEndExplains(src, o.cur, depth, WithItem(arr, Index(i), o.value)); }
    var m := ReadElement(src, cur, depth, arr, i);
    if m.Again? { ElementsExplain(src, m.cur, depth, m.value, i + 1); }
  }

  lemma ElementEndExplains(src: Source, cur: nat, depth: int, arr: Value)
    requires cur <= |src.doc|
    ensures StepExplains(ElementEnd(src, cur, depth, arr), src)
  {
    hide ReadToken, NonComment, Recover;
    TokensOfDocument(src, cur);
  }

  lemma {:induction false} MembersExplain(src: Source, cur: nat, depth: int, obj: Value, name: string)
    requires cur <= |src.doc| && obj.payload.Object?
    ensures Explains(ReadMembers(src, cur, depth, obj, name), src)
    decreases |src.doc| - cur, 1
  {
    hide ReadMember, ReadName, Explained;
    NameExplains(src, cur, depth, obj, name);
    var n := ReadName(src, cur, depth, obj, name);
    if n.Named? {
      MemberExplains(src, n.cur, depth, obj, n.name);
      var m := ReadMember(src, n.cur, depth, obj, n.name);
      if m.Again? { MembersExplain(src, m.cur, depth, m.value, n.name); }
    }
  }

  lemma NameExplains(src: Source, cur: nat, depth: int, obj: Value, name: string)
    requires cur <= |src.doc|
    ensures var n := ReadName(src, cur, depth, obj, name); n.Refused? ==> Explains(n.outcome, src)
  {
    hide ReadToken, NonComment, Recover, Unescape, DecodeNumber;
    TokensOfDocument(src, cur);
    InnerIsUnquoted(src.doc, NonComment(src.doc, cur));
  }

  lemma {:induction false} MemberExplains(src: Source, cur: nat, depth: int, obj: Value, name: string)
    requires cur <= |src.doc| && obj.payload.Object?
    ensures StepExplains(ReadMember(src, cur, depth, obj, name), src)
    decreases |src.doc| - cur, 0
  {
    hide ReadValue, ReadToken, NonComment, Put, Get, Recover, MemberKey, MemberEnd;
    TokensOfDocument(src, cur);
    var colon := ReadToken(src.doc, cur);
    if colon.kind == MemberSeparator {
      hide Explained;
      var key := MemberKey(name);
      var slot := Get(obj.payload.items, key);
      ValueExplains(src, colon.end, depth, slot);
      var o := ReadValue(src, colon.end, depth, slot);
      assert ReadMember(src, cur, depth, obj, name) == ReadMemberValue(src, colon.end, depth, obj, key);
      assert ReadMemberValue(src, colon.end, depth, obj, key) == MemberRead(src, colon.end, depth, obj, key, o);
      if o.Done? { MemberEndExplains(src, o.cur, o.depth, WithItem(obj, key, o.value)); }
    }
  }

  lemma MemberEndExplains(src: Source, cur: nat, depth: int, obj: Value)
    requires cur <= |src.doc|
    ensures StepExplains(MemberEnd(src, cur, depth, obj), src)
  {
    hide ReadToken, NonComment, Recover;
    TokensOfDocument(src, cur);
  }

  /** Every error of every parse. */
  lemma ParseExplains(src: Source, root: Value)
    ensures Explains(Parse(src, root), src)
  {
    hide ReadValue, ValueToken;
    ValueExplains(src, 0, 0, root);
  }
}
