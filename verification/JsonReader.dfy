/** Json::Reader itself: the cursor, the node stack, the error list and the
    depth counter, updated in place and proved to compute JsonParse.

    `nodes` holds the value each enclosing routine is filling; popping a child
    stores it in its parent, which is what writing through the C++ pointer does
    at once. */
module JsonReader {
  import opened JsonNumber
  import opened JsonParse
  import opened JsonScanner
  import opened JsonString
  import opened JsonValue
  import opened Options
  import opened Slices
  import Spec = JsonParse

  class Reader {
    const features: Features
    const toDouble: string -> Option<real>
    var document: string
    var current: nat
    var nodes: seq<Value>
    var errors: seq<ErrorInfo>
    var stackDepth: int

    constructor (features: Features, toDouble: string -> Option<real>)
      ensures this.features == features && this.toDouble == toDouble
    {
      this.features := features;
      this.toDouble := toDouble;
      document, current, nodes, errors, stackDepth := "", 0, [], [], 0;
    }

    function Src(): Source
      reads this`document
    {
      Source(document, features, toDouble)
    }

    /** What holds whenever readValue is entered: no error has been recorded,
        and the depth counter is the node-stack size minus one. */
    predicate Ready()
      reads this
    {
      current <= |document| && nodes != [] && errors == [] && stackDepth == |nodes| - 1
    }

    function Top(): Value
      requires nodes != []
      reads this`nodes
    {
      nodes[|nodes| - 1]
    }

    /** The reader's fields are those of a routine's return, with the stack
        below the current slot as it was. */
    predicate Left(o: Outcome, below: seq<Value>, ok: bool, fault: Option<Fault>)
      reads this
    {
      match o
      case Thrown(f) => fault == Some(f)
      case Done(success, cur, depth, errs, v) =>
        && fault == None && ok == success && current == cur && stackDepth == depth
        && errors == errs && nodes == below + [v]
    }

    // --------------------------------------------------------- scanning

    method GetNextChar() returns (c: char)
      requires current <= |document|
      modifies this`current
      ensures old(current) == |document| ==> c == NUL && current == old(current)
      ensures old(current) < |document| ==> c == document[old(current)] && current == old(current) + 1
    {
      if current == |document| { return NUL; }
      c := document[current];
      current := current + 1;
    }

    method SkipSpaces()
      requires current <= |document|
      modifies this`current
      ensures current == old(current) + SpaceRun(document[old(current)..])
    {
      while current != |document|
        invariant old(current) <= current <= |document|
        invariant SpaceRun(document[old(current)..]) == current - old(current) + SpaceRun(document[current..])
        decreases |document| - current
      {
        var c := document[current];
        DropDrop(document, current, 1);
        if c == ' ' || c == '\t' || c == '\r' || c == '\n' {
          current := current + 1;
        } else {
          break;
        }
      }
    }

    method Match(pattern: string) returns (ok: bool)
      requires current <= |document|
      modifies this`current
      ensures old(current) <= current <= |document|
      ensures Run(current - old(current), ok) == WordRun(document[old(current)..], pattern)
    {
      if |document| - current < |pattern| { return false; }
      var index := |pattern|;
      ghost var rest := document[current..];
      while index > 0
        invariant 0 <= index <= |pattern|
        invariant forall i :: index <= i < |pattern| ==> rest[i] == pattern[i]
        invariant current == old(current)
      {
        index := index - 1;
        if document[current + index] != pattern[index] {
          assert rest[..|pattern|][index] != pattern[index];
          return false;
        }
      }
      assert rest[..|pattern|] == pattern;
      current := current + |pattern|;
      ok := true;
    }

    method ReadStringText() returns (ok: bool)
      requires current <= |document|
      modifies this`current
      ensures old(current) <= current <= |document|
      ensures Run(current - old(current), ok) == StringRun(document[old(current)..])
    {
      var c := NUL;
      ghost var goal := StringRun(document[current..]);
      while current != |document|
        invariant old(current) <= current <= |document|
        invariant goal == Run(current - old(current) + StringRun(document[current..]).length, StringRun(document[current..]).ok)
        invariant c != '"'
        decreases |document| - current
      {
        ghost var rest := document[current..];
        c := GetNextChar();
        if c == '\\' {
          var _ := GetNextChar();
          assert |rest| >= 2 ==> rest[2..] == document[current..];
        } else if c == '"' {
          break;
        } else {
          assert rest[1..] == document[current..];
        }
      }
      ok := c == '"';
    }

    method SkipDigits()
      requires current <= |document|
      modifies this`current
      ensures current == old(current) + DigitRun(document[old(current)..])
    {
      while current < |document| && '0' <= document[current] <= '9'
        invariant old(current) <= current <= |document|
        invariant DigitRun(document[old(current)..]) == current - old(current) + DigitRun(document[current..])
        decreases |document| - current
      {
        DropDrop(document, current, 1);
        current := current + 1;
      }
    }

    method SkipFraction()
      requires current <= |document|
      modifies this`current
      ensures current == old(current) + FractionRun(document[old(current)..])
    {
      if current < |document| && document[current] == '.' {
        DropDrop(document, current, 1);
        current := current + 1;
        SkipDigits();
      }
    }

    method SkipExponent()
      requires current <= |document|
      modifies this`current
      ensures current == old(current) + ExponentRun(document[old(current)..])
    {
      if current < |document| && (document[current] == 'e' || document[current] == 'E') {
        DropDrop(document, current, 1);
        current := current + 1;
        if current < |document| && (document[current] == '+' || document[current] == '-') {
          DropDrop(document, current - 1, 2);
          current := current + 1;
        }
        SkipDigits();
      }
    }

    method ReadNumberText()
      requires current <= |document|
      modifies this`current
      ensures current == old(current) + NumberRun(document[old(current)..])
    {
      hide DigitRun, FractionRun, ExponentRun;
      SkipDigits();
      DropDrop(document, old(current), current - old(current));
      SkipFraction();
      DropDrop(document, old(current), current - old(current));
      SkipExponent();
    }

    method ReadCStyleComment() returns (ok: bool)
      requires current <= |document|
      modifies this`current
      ensures old(current) <= current <= |document|
      ensures Run(current - old(current), ok) == CStyleRun(document[old(current)..])
    {
      ghost var goal := CStyleRun(document[current..]);
      while current + 1 < |document|
        invariant old(current) <= current <= |document|
        invariant goal == Run(current - old(current) + CStyleRun(document[current..]).length, CStyleRun(document[current..]).ok)
        decreases |document| - current
      {
        DropDrop(document, current, 1);
        var c := GetNextChar();
        if c == '*' && document[current] == '/' {
          current := current + 1;
          return true;
        }
      }
      var last := GetNextChar();
      ok := last == '/';
    }

    method ReadCppStyleComment()
      requires current <= |document|
      modifies this`current
      ensures current == old(current) + LineRun(document[old(current)..])
    {
      while current != |document|
        invariant old(current) <= current <= |document|
        invariant LineRun(document[old(current)..]) == current - old(current) + LineRun(document[current..])
        decreases |document| - current
      {
        DropDrop(document, current, 1);
        var c := GetNextChar();
        if c == '\n' { return; }
        if c == '\r' {
          if current != |document| && document[current] == '\n' {
            current := current + 1;
          }
          return;
        }
      }
    }

    method ReadComment() returns (ok: bool)
      requires current <= |document|
      modifies this`current
      ensures old(current) <= current <= |document|
      ensures Run(current - old(current), ok) == CommentRun(document[old(current)..])
    {
      if current < |document| { DropDrop(document, current, 1); }
      var c := GetNextChar();
      ok := false;
      if c == '*' {
        ok := ReadCStyleComment();
      } else if c == '/' {
        ReadCppStyleComment();
        ok := true;
      }
    }

    /** The cases of readToken's switch that go on scanning. */
    method LexLong(c: char) returns (kind: TokenType)
      requires current < |document| && c == document[current]
      requires c == '"' || c == '/' || c == 't' || c == 'f' || c == 'n' || c == '-' || IsDigit(c)
      modifies this`current
      ensures old(current) <= current <= |document|
      ensures Lexeme(kind, current - old(current)) == Lex(document[old(current)..])
    {
      hide StringRun, CommentRun, NumberRun, WordRun;
      var ok := true;
      DropDrop(document, current, 1);
      current := current + 1;
      match c {
      case '"' => kind := StringText; ok := ReadStringText();
      case '/' => kind := Comment; ok := ReadComment();
      case 't' => kind := True; ok := Match("rue");
      case 'f' => kind := False; ok := Match("alse");
      case 'n' => kind := NullWord; ok := Match("ull");
      case _ => kind := Number; ReadNumberText();
      }
      if !ok { kind := Error; }
    }

    /** readToken: the token is the one ReadToken names and the cursor ends
        where the token does. */
    method NextToken() returns (token: Token)
      requires current <= |document|
      modifies this`current
      ensures token == ReadToken(document, old(current)) && current == token.end
    {
      hide StringRun, CommentRun, NumberRun, WordRun, SpaceRun;
      SkipSpaces();
      var start := current;
      var kind := EndOfStream;
      if current < |document| {
        var c := document[current];
        if c == '"' || c == '/' || c == 't' || c == 'f' || c == 'n' || c == '-' || IsDigit(c) {
          kind := LexLong(c);
        } else {
          current := current + 1;
          match c
          case '{' => kind := ObjectBegin;
          case '}' => kind := ObjectEnd;
          case '[' => kind := ArrayBegin;
          case ']' => kind := ArrayEnd;
          case ',' => kind := ArraySeparator;
          case ':' => kind := MemberSeparator;
          case _ => kind := if c == NUL then EndOfStream else Error;
        }
      }
      token := Token(kind, start, current);
    }

    method NextNonComment() returns (token: Token)
      requires current <= |document|
      modifies this`current
      ensures token == NonComment(document, old(current)) && current == token.end
    {
      token := NextToken();
      while token.kind == Comment
        invariant current == token.end <= |document|
        invariant NonComment(document, old(current)) == if token.kind == Comment then NonComment(document, current) else token
        decreases if token.kind == Comment then 1 + |document| - current else 0
      {
        assert NonComment(document, current) ==
          var t := ReadToken(document, current); if t.kind == Comment then NonComment(document, t.end) else t;
        token := NextToken();
      }
    }

    method SkipCommentTokens() returns (token: Token)
      requires current <= |document|
      modifies this`current
      ensures token == ValueToken(Src(), old(current)) && current == token.end
    {
      if features.allowComments {
        token := NextNonComment();
      } else {
        token := NextToken();
      }
    }

    method RecoverFromError(skipUntilToken: TokenType) returns (ok: bool)
      requires current <= |document|
      modifies this`current
      ensures !ok && current == Recover(document, old(current), skipUntilToken)
    {
      ok := false;
      while true
        invariant current <= |document|
        invariant Recover(document, old(current), skipUntilToken) == Recover(document, current, skipUntilToken)
        decreases |document| - current
      {
        var skip := NextToken();
        if skip.kind == skipUntilToken || skip.kind == EndOfStream { return; }
      }
    }

    // ---------------------------------------------------------- errors

    method AddError(message: Message, token: Token, extra: Option<nat>) returns (ok: bool)
      modifies this`errors
      ensures !ok && errors == old(errors) + [ErrorInfo(message, token, extra)]
    {
      errors := errors + [ErrorInfo(message, token, extra)];
      ok := false;
    }

    method AddErrorAndRecover(message: Message, token: Token, until: TokenType) returns (ok: bool)
      requires current <= |document|
      modifies this`errors, this`current
      ensures !ok && errors == old(errors) + [ErrorInfo(message, token, None)]
      ensures current == Recover(document, old(current), until)
    {
      ok := AddError(message, token, None);
      ok := RecoverFromError(until);
    }

    // ---------------------------------------------------------- nodes

    /** swapPayload and the offset setters on currentValue(). */
    method SetCurrentValue(v: Value)
      requires nodes != []
      modifies this`nodes
      ensures nodes == old(nodes)[..|old(nodes)| - 1] + [v]
    {
      nodes := nodes[..|nodes| - 1] + [v];
    }

    /** `nodes_.push(&currentValue()[key])` */
    method PushSlot(key: Key)
      requires nodes != [] && Top().payload.Container()
      modifies this`nodes
      ensures nodes == old(nodes) + [Get(old(Top()).payload.items, key)]
    {
      nodes := nodes + [Get(Top().payload.items, key)];
    }

    /** `nodes_.pop()`, with the child stored where its pointer led. */
    method PopSlot(key: Key)
      requires |nodes| >= 2 && nodes[|nodes| - 2].payload.Container()
      modifies this`nodes
      ensures nodes == old(nodes)[..|old(nodes)| - 2] + [WithItem(old(nodes)[|old(nodes)| - 2], key, old(Top()))]
    {
      var child := Top();
      nodes := nodes[..|nodes| - 2] + [WithItem(nodes[|nodes| - 2], key, child)];
    }

    // ---------------------------------------------------------- values

    /** readValue.  The precondition is proved at every call: values are only
        read while the error list is empty and the depth counter is balanced. */
    method ReadValue() returns (ok: bool, fault: Option<Fault>)
      requires Ready()
      modifies this`current, this`nodes, this`errors, this`stackDepth
      ensures Left(Spec.ReadValue(Src(), old(current), old(stackDepth), old(Top())),
                   old(nodes)[..|old(nodes)| - 1], ok, fault)
      decreases |document| - current, 1
    {
      hide ReadAt, NonComment, ReadToken;
      if stackDepth >= STACK_LIMIT { return false, Some(StackLimitExceeded); }
      stackDepth := stackDepth + 1;
      var token := SkipCommentTokens();
      if features.allowDroppedNull && (token.kind == ArraySeparator || token.kind == ObjectEnd || token.kind == ArrayEnd) {
        current := current - 1;
        SetCurrentValue(Value(Null, current - 1, current));
        stackDepth := stackDepth - 1;
        return true, None;
      }
      assert Spec.ReadValue(Src(), old(current), old(stackDepth), old(Top())) == ReadAt(Src(), token, old(stackDepth), old(Top()));
      ok, fault := ReadTokenValue(token);
    }

    /** The switch of readValue and the decrement after it. */
    method ReadTokenValue(token: Token) returns (ok: bool, fault: Option<Fault>)
      requires token.start <= token.end == current <= |document| && (token.kind != EndOfStream ==> token.start < token.end)
      requires nodes != [] && errors == [] && stackDepth == |nodes|
      modifies this`current, this`nodes, this`errors, this`stackDepth
      ensures Left(ReadAt(Src(), token, old(stackDepth) - 1, old(Top())), old(nodes)[..|old(nodes)| - 1], ok, fault)
      decreases |document| - token.start, 0
    {
      hide ReadMembers, Spec.ReadArray, ReadNumber, ReadString;
      ok, fault := true, None;
      match token.kind {
      case ObjectBegin =>
        ok, fault := ReadObject(token);
        if fault.Some? { return; }
        SetCurrentValue(Top().(limit := current));
      case ArrayBegin =>
        ok, fault := ReadArray(token);
        if fault.Some? { return; }
        SetCurrentValue(Top().(limit := current));
      case Number =>
        stackDepth := stackDepth - 1;
        ok := DecodeNumberToken(token);
        return;
      case StringText =>
        stackDepth := stackDepth - 1;
        ok, fault := DecodeStringToken(token);
        return;
      case True => SetCurrentValue(Value(Bool(true), token.start, token.end));
      case False => SetCurrentValue(Value(Bool(false), token.start, token.end));
      case NullWord => SetCurrentValue(Value(Null, token.start, token.end));
      case _ =>
        SetCurrentValue(Top().(start := token.start, limit := token.end));
        ok := AddError(ValueExpected, token, None);
        return;
      }
      stackDepth := stackDepth - 1;
    }

    method DecodeNumberToken(token: Token) returns (ok: bool)
      requires token.start <= token.end == current <= |document| && nodes != [] && errors == []
      modifies this`nodes, this`errors
      ensures Left(ReadNumber(Src(), token, stackDepth, old(Top())), old(nodes)[..|old(nodes)| - 1], ok, None)
    {
      hide DecodeNumber;
      assert nodes == nodes[..|nodes| - 1] + [Top()];
      var text := document[token.start..token.end];
      var decoded := DecodeNumberText(text);
      match decoded
      case Integer(p) =>
        SetCurrentValue(Value(p, token.start, token.end));
        ok := true;
      case AsDouble =>
        match toDouble(text)
        case Some(r) =>
          SetCurrentValue(Value(Real(r), token.start, token.end));
          ok := true;
        case None =>
          ok := AddError(NotANumber, token, None);
    }

    method DecodeStringToken(token: Token) returns (ok: bool, fault: Option<Fault>)
      requires token.start <= token.end == current <= |document| && nodes != [] && errors == []
      modifies this`nodes, this`errors
      ensures Left(ReadString(Src(), token, stackDepth, old(Top())), old(nodes)[..|old(nodes)| - 1], ok, fault)
    {
      hide Unescape;
      assert nodes == nodes[..|nodes| - 1] + [Top()];
      ok, fault := true, None;
      var decoded := DecodeString(Inner(document, token));
      match decoded
      case Bad(p, at) =>
        ok := AddError(BadString(p), token, Some(token.start + 1 + at));
      case Text(s) =>
        match StringPayload(s)
        case None => fault := Some(TextTooLong);
        case Some(p) => SetCurrentValue(Value(p, token.start, token.end));
    }

    /** The fields after one pass through a loop body. */
    predicate Stepped(s: Step, below: seq<Value>, depth: int, again: bool, ok: bool, fault: Option<Fault>)
      reads this
    {
      match s
      case Return(o) => !again && Left(o, below, ok, fault)
      case Again(cur, v) =>
        again && current == cur && nodes == below + [v] && errors == [] && stackDepth == depth && fault == None
    }

    /** readObject's loop body up to the member name. */
    method ReadName(name: string) returns (named: bool, member: string, ok: bool, fault: Option<Fault>)
      requires current <= |document| && nodes != [] && errors == []
      modifies this`current, this`errors
      ensures match Spec.ReadName(Src(), old(current), stackDepth, Top(), name)
              case Refused(o) => !named && Left(o, nodes[..|nodes| - 1], ok, fault)
              case Named(cur, m) => named && current == cur && errors == [] && member == m && fault == None
    {
      hide Unescape, Recover, NonComment, DecodeNumber, Inner, TokenText;
      assert nodes == nodes[..|nodes| - 1] + [Top()];
      named, member, ok, fault := false, "", true, None;
      var tokenName := NextNonComment();
      if tokenName.kind == ObjectEnd && name == "" { return; }
      if tokenName.kind == StringText {
        var decoded := DecodeString(Inner(document, tokenName));
        match decoded
        case Text(s) =>
          named, member := true, s;
        case Bad(p, at) =>
          ok := AddError(BadString(p), tokenName, Some(tokenName.start + 1 + at));
          ok := RecoverFromError(ObjectEnd);
      } else if tokenName.kind == Number && features.allowNumericKeys {
        var text := TokenText(document, tokenName);
        var decoded := DecodeNumberText(text);
        if decoded.AsDouble? && toDouble(text).None? {
          ok := AddErrorAndRecover(NotANumber, tokenName, ObjectEnd);
        } else {
          fault := Some(NumericName);
        }
      } else {
        ok := AddErrorAndRecover(MissingBraceOrName, tokenName, ObjectEnd);
      }
    }

    /** readObject's loop body from the colon on. */
    method ReadMember(name: string) returns (again: bool, ok: bool, fault: Option<Fault>)
      requires current <= |document| && nodes != [] && errors == [] && stackDepth == |nodes| && Top().payload.Object?
      modifies this`current, this`nodes, this`errors, this`stackDepth
      ensures Stepped(Spec.ReadMember(Src(), old(current), old(stackDepth), old(Top()), name),
                      old(nodes)[..|old(nodes)| - 1], old(stackDepth), again, ok, fault)
      decreases |document| - current, 0
    {
      hide Spec.ReadValue, MemberEnd, Recover, ReadToken, Get, Put;
      ghost var below, obj := nodes[..|nodes| - 1], Top();
      again, fault := false, None;
      assert nodes == below + [obj];
      var colon := NextToken();
      if colon.kind != MemberSeparator {
        ok := AddErrorAndRecover(MissingColon, colon, ObjectEnd);
        return;
      }
      var key := MemberKey(name);
      PushSlot(key);
      assert nodes[..|nodes| - 1] == below + [obj];
      ok, fault := ReadValue();
      if fault.Some? { return; }
      PopSlot(key);
      assert nodes[..|nodes| - 1] == below;
      if !ok {
        ok := RecoverFromError(ObjectEnd);
        return;
      }
      again, ok := ReadMemberEnd();
    }

    method ReadMemberEnd() returns (again: bool, ok: bool)
      requires current <= |document| && nodes != [] && errors == []
      modifies this`current, this`errors
      ensures Stepped(MemberEnd(Src(), old(current), stackDepth, Top()), nodes[..|nodes| - 1], stackDepth, again, ok, None)
    {
      hide Recover, ReadToken;
      assert nodes == nodes[..|nodes| - 1] + [Top()];
      again, ok := false, true;
      var comma := NextToken();
      if comma.kind != ObjectEnd && comma.kind != ArraySeparator && comma.kind != Comment {
        ok := AddErrorAndRecover(MissingCommaOrBrace, comma, ObjectEnd);
        return;
      }
      if comma.kind == Comment {
        comma := NextNonComment();
      }
      again := comma.kind != ObjectEnd;
    }

    /** readObject */
    method ReadObject(tokenStart: Token) returns (ok: bool, fault: Option<Fault>)
      requires current <= |document| && nodes != [] && errors == [] && stackDepth == |nodes|
      modifies this`current, this`nodes, this`errors, this`stackDepth
      ensures Left(ReadMembers(Src(), old(current), old(stackDepth), Value(Object([]), tokenStart.start, old(Top()).limit), ""),
                   old(nodes)[..|old(nodes)| - 1], ok, fault)
      decreases |document| - current, 1
    {
      hide Spec.ReadName, Spec.ReadMember;
      ghost var below, depth, src := nodes[..|nodes| - 1], stackDepth, Src();
      SetCurrentValue(Value(Object([]), tokenStart.start, Top().limit));
      var name := "";
      ghost var goal := ReadMembers(src, current, depth, Top(), name);
      while true
        invariant old(current) <= current <= |document| && nodes != [] && errors == [] && stackDepth == depth == |nodes|
        invariant nodes[..|nodes| - 1] == below && Top().payload.Object?
        invariant goal == ReadMembers(src, current, depth, Top(), name)
        decreases |document| - current
      {
        var named, member;
        named, member, ok, fault := ReadName(name);
        if !named { return; }
        var again;
        again, ok, fault := ReadMember(member);
        if !again { return; }
        name := member;
      }
    }

    /** One element of readArray and its separator. */
    method ReadElement(index: nat) returns (again: bool, ok: bool, fault: Option<Fault>)
      requires current <= |document| && nodes != [] && errors == [] && stackDepth == |nodes| && Top().payload.Array?
      modifies this`current, this`nodes, this`errors, this`stackDepth
      ensures Stepped(Spec.ReadElement(Src(), old(current), old(stackDepth), old(Top()), index),
                      old(nodes)[..|old(nodes)| - 1], old(stackDepth), again, ok, fault)
      decreases |document| - current, 2
    {
      hide Spec.ReadValue, Recover, NonComment, Get, Put;
      ghost var below, arr := nodes[..|nodes| - 1], Top();
      again := false;
      PushSlot(Index(index));
      assert nodes[..|nodes| - 1] == below + [arr];
      ok, fault := ReadValue();
      if fault.Some? { return; }
      PopSlot(Index(index));
      assert nodes[..|nodes| - 1] == below;
      if !ok {
        ok := RecoverFromError(ArrayEnd);
        return;
      }
      var token := NextNonComment();
      if token.kind != ArraySeparator && token.kind != ArrayEnd {
        ok := AddErrorAndRecover(MissingCommaOrBracket, token, ArrayEnd);
        return;
      }
      again := token.kind != ArrayEnd;
    }

    /** The loop of readArray. */
    method ReadElements() returns (ok: bool, fault: Option<Fault>)
      requires current <= |document| && nodes != [] && errors == [] && stackDepth == |nodes| && Top().payload.Array?
      modifies this`current, this`nodes, this`errors, this`stackDepth
      ensures Left(Spec.ReadElements(Src(), old(current), old(stackDepth), old(Top()), 0),
                   old(nodes)[..|old(nodes)| - 1], ok, fault)
      decreases |document| - current, 3
    {
      hide Spec.ReadElement;
      ghost var below, depth, src := nodes[..|nodes| - 1], stackDepth, Src();
      var index: nat := 0;
      ghost var goal := Spec.ReadElements(src, current, depth, Top(), index);
      while true
        invariant old(current) <= current <= |document| && nodes != [] && errors == [] && stackDepth == depth == |nodes|
        invariant nodes[..|nodes| - 1] == below && Top().payload.Array?
        invariant goal == Spec.ReadElements(src, current, depth, Top(), index)
        decreases |document| - current
      {
        var again;
        again, ok, fault := ReadElement(index);
        if !again { return; }
        index := index + 1;
      }
    }

    /** readArray */
    method ReadArray(tokenStart: Token) returns (ok: bool, fault: Option<Fault>)
      requires current <= |document| && nodes != [] && errors == [] && stackDepth == |nodes|
      modifies this`current, this`nodes, this`errors, this`stackDepth
      ensures Left(Spec.ReadArray(Src(), old(current), old(stackDepth), Value(Array([]), tokenStart.start, old(Top()).limit)),
                   old(nodes)[..|old(nodes)| - 1], ok, fault)
      decreases |document| - current, 4
    {
      hide Spec.ReadElements, ReadToken, SpaceRun;
      SetCurrentValue(Value(Array([]), tokenStart.start, Top().limit));
      SkipSpaces();
      if current != |document| && document[current] == ']' {
        var _ := NextToken();
        return true, None;
      }
      ok, fault := ReadElements();
    }

    /** parse: the flag it returns is the emptiness of the error list, and the
        stack holds the root alone again. */
    method ParseDocument(text: string, root: Value) returns (ok: bool, result: Value, fault: Option<Fault>)
      modifies this
      ensures document == text
      ensures match Parse(Source(text, features, toDouble), root)
              case Thrown(f) => fault == Some(f)
              case Done(success, cur, depth, errs, v) =>
                fault == None && ok == success && result == v && errors == errs && current == cur && nodes == [v]
      ensures fault == None ==> (ok <==> errors == [])
    {
      hide Spec.ReadValue, NonComment, ReadToken;
      document, current, errors := text, 0, [];
      nodes := [root];
      stackDepth := 0;
      result := root;
      ok, fault := ReadValue();
      if fault.Some? { return; }
      result := Top();
      var token := SkipCommentTokens();
      if features.strictRoot && !result.payload.Container() {
        ok := AddError(RootNotContainer, Token(Error, 0, |text|), None);
      }
    }
  }
}
