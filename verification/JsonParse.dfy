/** What Json::Reader computes, as functions of the document and a cursor: the
    recursive descent of readValue, readObject and readArray with the error
    list, the recovery scan, the depth counter and the thrown faults. */
module JsonParse {
  import opened JsonNumber
  import opened JsonScanner
  import opened JsonString
  import opened JsonValue
  import opened Options

  datatype Features = Features(
    allowComments: bool, strictRoot: bool, allowDroppedNull: bool, allowNumericKeys: bool)

  const STACK_LIMIT: int := 1000

  /** A document to read.  `toDouble` stands for the C++ stream extraction that
      decodeDouble relies on. */
  datatype Source = Source(doc: string, features: Features, toDouble: string -> Option<real>)

  datatype Message =
    | ValueExpected | MissingColon | MissingCommaOrBrace | MissingBraceOrName
    | MissingCommaOrBracket | NotANumber | BadString(problem: Problem) | RootNotContainer

  datatype ErrorInfo = ErrorInfo(message: Message, token: Token, extra: Option<nat>)

  /** The exceptions a parse can leave by. */
  datatype Fault = StackLimitExceeded | TextTooLong | NumericName

  /** How a reading routine returns: the flag, the cursor, the depth counter,
      the recorded errors and the value left in the slot it was given. */
  datatype Outcome =
    | Thrown(fault: Fault)
    | Done(ok: bool, cur: nat, depth: int, errors: seq<ErrorInfo>, value: Value)

  function TokenText(doc: string, t: Token): string
    requires t.start <= t.end <= |doc|
  {
    doc[t.start..t.end]
  }

  /** The text between the quotes of a string token. */
  function Inner(doc: string, t: Token): string
    requires t.start <= t.end <= |doc|
  {
    if t.end - t.start >= 2 then doc[t.start + 1..t.end - 1] else ""
  }

  /** Read tokens until one is not a comment. */
  function NonComment(doc: string, cur: nat): (t: Token)
    requires cur <= |doc|
    ensures cur <= t.start <= t.end <= |doc|
    ensures t.kind != EndOfStream ==> t.start < t.end
    ensures IsPunctuation(t.kind) ==> t.end == t.start + 1
    ensures t.kind != Comment
    decreases |doc| - cur
  {
    var t := ReadToken(doc, cur);
    if t.kind == Comment then NonComment(doc, t.end) else t
  }

  /** skipCommentTokens */
  function ValueToken(src: Source, cur: nat): (t: Token)
    requires cur <= |src.doc|
    ensures cur <= t.start <= t.end <= |src.doc|
    ensures t.kind != EndOfStream ==> t.start < t.end
    ensures IsPunctuation(t.kind) ==> t.end == t.start + 1
  {
    if src.features.allowComments then NonComment(src.doc, cur) else ReadToken(src.doc, cur)
  }

  /** recoverFromError: skip past the wanted token or to the end of stream. */
  function Recover(doc: string, cur: nat, until: TokenType): (c: nat)
    requires cur <= |doc|
    ensures cur <= c <= |doc|
    decreases |doc| - cur
  {
    var t := ReadToken(doc, cur);
    if t.kind == until || t.kind == EndOfStream then t.end else Recover(doc, t.end, until)
  }

  function Failed(doc: string, cur: nat, until: TokenType, depth: int, error: ErrorInfo, value: Value): Outcome
    requires cur <= |doc|
  {
    Done(false, Recover(doc, cur, until), depth, [error], value)
  }

  /** addErrorAndRecover at a token just read. */
  function FailedAt(doc: string, t: Token, until: TokenType, depth: int, message: Message, value: Value): Outcome
    requires t.end <= |doc|
  {
    Failed(doc, t.end, until, depth, ErrorInfo(message, t, None), value)
  }

  /** The payload of a string value, or the fault of its constructor. */
  function StringPayload(s: string): Option<Payload> {
    var n := |s| % TWO_32;
    if n > TEXT_LIMIT then None else Some(Str(s[..n]))
  }

  /** The key under which operator[] files a member name. */
  function MemberKey(name: string): Key { Name(name[..|name| % KEY_LIMIT]) }

  function WithItem(v: Value, key: Key, item: Value): (w: Value)
    requires v.payload.Container()
    ensures w.payload.Tag() == v.payload.Tag() && w.start == v.start && w.limit == v.limit
    ensures w.payload.items == Put(v.payload.items, key, item)
  {
    v.(payload := if v.payload.Array? then Array(Put(v.payload.items, key, item))
                  else Object(Put(v.payload.items, key, item)))
  }

  /** The invariant every return obeys: the cursor only moved forward, at most
      one error was recorded, the flag says whether there is one, and success
      balances the depth counter. */
  predicate Disciplined(o: Outcome, doc: string, cur: nat, depth: int) {
    o.Done? ==>
      && cur <= o.cur <= |doc|
      && |o.errors| <= 1
      && (o.ok <==> o.errors == [])
      && (o.ok ==> o.depth == depth)
  }

  /** readValue at a cursor, with the value its slot holds beforehand. */
  function ReadValue(src: Source, cur: nat, depth: int, slot: Value): (o: Outcome)
    requires cur <= |src.doc|
    ensures Disciplined(o, src.doc, cur, depth)
    decreases |src.doc| - cur, 1
  {
    if depth >= STACK_LIMIT then Thrown(StackLimitExceeded)
    else
      var t := ValueToken(src, cur);
      if DropsNull(src, t) then
        // The token is "un-read" and the slot becomes null.
        Done(true, t.end - 1, depth, [], Value(Null, t.end - 2, t.end - 1))
      else ReadAt(src, t, depth, slot)
  }

  predicate DropsNull(src: Source, t: Token) {
    src.features.allowDroppedNull && (t.kind == ArraySeparator || t.kind == ObjectEnd || t.kind == ArrayEnd)
  }

  /** The switch of readValue on the token it has just read. */
  function ReadAt(src: Source, t: Token, depth: int, slot: Value): (o: Outcome)
    requires t.start <= t.end <= |src.doc| && (t.kind != EndOfStream ==> t.start < t.end)
    ensures Disciplined(o, src.doc, t.end, depth)
    decreases |src.doc| - t.start, 0
  {
    match t.kind
    case ObjectBegin =>
      Close(ReadMembers(src, t.end, depth + 1, Value(Object([]), t.start, slot.limit), ""))
    case ArrayBegin =>
      Close(ReadArray(src, t.end, depth + 1, Value(Array([]), t.start, slot.limit)))
    case Number => ReadNumber(src, t, depth, slot)
    case StringText => ReadString(src, t, depth, slot)
    case True => Done(true, t.end, depth, [], Value(Bool(true), t.start, t.end))
    case False => Done(true, t.end, depth, [], Value(Bool(false), t.start, t.end))
    case NullWord => Done(true, t.end, depth, [], Value(Null, t.start, t.end))
    case _ =>
      Done(false, t.end, depth + 1, [ErrorInfo(ValueExpected, t, None)],
           slot.(start := t.start, limit := t.end))
  }

  /** setOffsetLimit and the decrement after a container has been read. */
  function Close(o: Outcome): Outcome {
    match o
    case Thrown(f) => Thrown(f)
    case Done(ok, cur, depth, errors, v) => Done(ok, cur, depth - 1, errors, v.(limit := cur))
  }

  function ReadNumber(src: Source, t: Token, depth: int, slot: Value): Outcome
    requires t.start <= t.end <= |src.doc|
  {
    match DecodeNumber(TokenText(src.doc, t))
    case Integer(p) => Done(true, t.end, depth, [], Value(p, t.start, t.end))
    case AsDouble =>
      match src.toDouble(TokenText(src.doc, t))
      case Some(r) => Done(true, t.end, depth, [], Value(Real(r), t.start, t.end))
      case None => Done(false, t.end, depth, [ErrorInfo(NotANumber, t, None)], slot)
  }

  function StringError(t: Token, problem: Problem, at: nat): ErrorInfo {
    ErrorInfo(BadString(problem), t, Some(t.start + 1 + at))
  }

  function ReadString(src: Source, t: Token, depth: int, slot: Value): Outcome
    requires t.start <= t.end <= |src.doc|
  {
    match Unescape(Inner(src.doc, t))
    case Bad(p, at) => Done(false, t.end, depth, [StringError(t, p, at)], slot)
    case Text(s) =>
      match StringPayload(s)
      case None => Thrown(TextTooLong)
      case Some(p) => Done(true, t.end, depth, [], Value(p, t.start, t.end))
  }

  /** What one pass through a loop body leads to: leaving the routine, or going
      round again from a cursor with the container filled so far. */
  datatype Step = Return(outcome: Outcome) | Again(cur: nat, value: Value)

  datatype NameStep = Refused(outcome: Outcome) | Named(cur: nat, name: string)

  /** The first half of readObject's loop body: the closing brace of an empty
      object, or a member name.  `name` is the previous member's name. */
  function ReadName(src: Source, cur: nat, depth: int, obj: Value, name: string): (n: NameStep)
    requires cur <= |src.doc|
    ensures n.Refused? ==> Disciplined(n.outcome, src.doc, cur, depth)
    ensures n.Named? ==> cur < n.cur <= |src.doc|
  {
    var t := NonComment(src.doc, cur);
    if t.kind == ObjectEnd && name == "" then Refused(Done(true, t.end, depth, [], obj))
    else if t.kind == StringText then
      match Unescape(Inner(src.doc, t))
      case Bad(p, at) => Refused(Failed(src.doc, t.end, ObjectEnd, depth, StringError(t, p, at), obj))
      case Text(member) => Named(t.end, member)
    else if t.kind == Number && src.features.allowNumericKeys then
      if DecodeNumber(TokenText(src.doc, t)).AsDouble? && src.toDouble(TokenText(src.doc, t)).None? then
        Refused(FailedAt(src.doc, t, ObjectEnd, depth, NotANumber, obj))
      else Refused(Thrown(NumericName))
    else Refused(FailedAt(src.doc, t, ObjectEnd, depth, MissingBraceOrName, obj))
  }

  predicate StepDisciplined(s: Step, src: Source, cur: nat, depth: int, tag: nat) {
    match s
    case Return(o) => Disciplined(o, src.doc, cur, depth)
    case Again(c, v) => cur < c <= |src.doc| && v.payload.Tag() == tag
  }

  /** The second half: colon, value, separator. */
  function ReadMember(src: Source, cur: nat, depth: int, obj: Value, name: string): (s: Step)
    requires cur <= |src.doc| && obj.payload.Object?
    ensures StepDisciplined(s, src, cur, depth, 7)
    decreases |src.doc| - cur, 0
  {
    var colon := ReadToken(src.doc, cur);
    if colon.kind != MemberSeparator then Return(FailedAt(src.doc, colon, ObjectEnd, depth, MissingColon, obj))
    else ReadMemberValue(src, colon.end, depth, obj, MemberKey(name))
  }

  /** Behind the colon. */
  function ReadMemberValue(src: Source, cur: nat, depth: int, obj: Value, key: Key): (s: Step)
    requires cur <= |src.doc| && obj.payload.Object?
    ensures s.Return? ==> Disciplined(s.outcome, src.doc, cur, depth)
    ensures s.Again? ==> cur <= s.cur <= |src.doc| && s.value.payload.Object?
    decreases |src.doc| - cur, 2
  {
    MemberRead(src, cur, depth, obj, key, ReadValue(src, cur, depth, Get(obj.payload.items, key)))
  }

  /** Filing the value under its name; an error inside it is recovered from. */
  function MemberRead(src: Source, cur: nat, depth: int, obj: Value, key: Key, o: Outcome): (s: Step)
    requires cur <= |src.doc| && obj.payload.Object? && Disciplined(o, src.doc, cur, depth)
    ensures s.Return? ==> Disciplined(s.outcome, src.doc, cur, depth)
    ensures s.Again? ==> cur <= s.cur <= |src.doc| && s.value.payload.Object?
  {
    match o
    case Thrown(f) => Return(Thrown(f))
    case Done(ok, cur1, depth1, errors, v) =>
      var obj1 := WithItem(obj, key, v);
      if !ok then Return(Done(false, Recover(src.doc, cur1, ObjectEnd), depth1, errors, obj1))
      else MemberEnd(src, cur1, depth1, obj1)
  }

  /** The separator after a member. */
  function MemberEnd(src: Source, cur: nat, depth: int, obj: Value): (s: Step)
    requires cur <= |src.doc|
    ensures s.Return? ==> Disciplined(s.outcome, src.doc, cur, depth)
    ensures s.Again? ==> cur <= s.cur <= |src.doc| && s.value == obj
  {
    var first := ReadToken(src.doc, cur);
    if first.kind != ObjectEnd && first.kind != ArraySeparator && first.kind != Comment then
      Return(FailedAt(src.doc, first, ObjectEnd, depth, MissingCommaOrBrace, obj))
    else
      var comma := NonComment(src.doc, cur);
      if comma.kind == ObjectEnd then Return(Done(true, comma.end, depth, [], obj)) else Again(comma.end, obj)
  }

  /** The loop of readObject. */
  function ReadMembers(src: Source, cur: nat, depth: int, obj: Value, name: string): (o: Outcome)
    requires cur <= |src.doc| && obj.payload.Object?
    ensures Disciplined(o, src.doc, cur, depth)
    decreases |src.doc| - cur, 1
  {
    match ReadName(src, cur, depth, obj, name)
    case Refused(o) => o
    case Named(cur1, member) =>
      match ReadMember(src, cur1, depth, obj, member)
      case Return(o) => o
      case Again(cur2, obj1) => ReadMembers(src, cur2, depth, obj1, member)
  }

  function ReadArray(src: Source, cur: nat, depth: int, arr: Value): (o: Outcome)
    requires cur <= |src.doc| && arr.payload.Array?
    ensures Disciplined(o, src.doc, cur, depth)
    decreases |src.doc| - cur, 4
  {
    var k := cur + SpaceRun(src.doc[cur..]);
    if k < |src.doc| && src.doc[k] == ']' then Done(true, ReadToken(src.doc, k).end, depth, [], arr)
    else ReadElements(src, k, depth, arr, 0)
  }

  /** One element and its separator. */
  function ReadElement(src: Source, cur: nat, depth: int, arr: Value, index: nat): (s: Step)
    requires cur <= |src.doc| && arr.payload.Array?
    ensures StepDisciplined(s, src, cur, depth, 6)
    decreases |src.doc| - cur, 2
  {
    ElementRead(src, cur, depth, arr, index, ReadValue(src, cur, depth, Get(arr.payload.items, Index(index))))
  }

  function ElementRead(src: Source, cur: nat, depth: int, arr: Value, index: nat, o: Outcome): (s: Step)
    requires cur <= |src.doc| && arr.payload.Array? && Disciplined(o, src.doc, cur, depth)
    ensures StepDisciplined(s, src, cur, depth, 6)
  {
    match o
    case Thrown(f) => Return(Thrown(f))
    case Done(ok, cur1, depth1, errors, v) =>
      var arr1 := WithItem(arr, Index(index), v);
      if !ok then Return(Done(false, Recover(src.doc, cur1, ArrayEnd), depth1, errors, arr1))
      else ElementEnd(src, cur1, depth1, arr1)
  }

  function ElementEnd(src: Source, cur: nat, depth: int, arr: Value): (s: Step)
    requires cur <= |src.doc|
    ensures s.Return? ==> Disciplined(s.outcome, src.doc, cur, depth)
    ensures s.Again? ==> cur < s.cur <= |src.doc| && s.value == arr
  {
    var t := NonComment(src.doc, cur);
    if t.kind != ArraySeparator && t.kind != ArrayEnd then
      Return(FailedAt(src.doc, t, ArrayEnd, depth, MissingCommaOrBracket, arr))
    else if t.kind == ArrayEnd then Return(Done(true, t.end, depth, [], arr))
    else Again(t.end, arr)
  }

  /** The loop of readArray. */
  function ReadElements(src: Source, cur: nat, depth: int, arr: Value, index: nat): (o: Outcome)
    requires cur <= |src.doc| && arr.payload.Array?
    ensures Disciplined(o, src.doc, cur, depth)
    decreases |src.doc| - cur, 3
  {
    match ReadElement(src, cur, depth, arr, index)
    case Return(o) => o
    case Again(cur1, arr1) => ReadElements(src, cur1, depth, arr1, index + 1)
  }

  /** parse, from the first character to the trailing comments. */
  function Parse(src: Source, root: Value): (o: Outcome)
    ensures o.Done? ==> (o.ok <==> o.errors == []) && o.cur <= |src.doc|
    ensures o.Done? && !src.features.strictRoot ==> |o.errors| <= 1
  {
    match ReadValue(src, 0, 0, root)
    case Thrown(f) => Thrown(f)
    case Done(ok, cur, depth, errors, v) =>
      var cur1 := ValueToken(src, cur).end;
      if src.features.strictRoot && !v.payload.Container() then
        Done(false, cur1, depth, errors + [ErrorInfo(RootNotContainer, Token(Error, 0, |src.doc|), None)], v)
      else Done(ok, cur1, depth, errors, v)
  }
}
