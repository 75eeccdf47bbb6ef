/** Everything that Json::Reader accepts, on every text and with any features: the grammar
    that the tokens of an accepted value obey, and what the value then is.  Next to RFC 8259
    it lets in comments, dropped nulls, other marks for the comma of an object behind a
    comment, and a comma behind a member without a name. */
module JsonAccepted {
  import opened JsonNumber
  import opened JsonParse
  import opened JsonScanner
  import opened JsonString
  import opened JsonValue
  import opened Options
  import opened Slices

  // ---------------------------------------------------------------- tokens

  /** All tokens of a document from a cursor on; a NUL is one of them. */
  function Stream(doc: string, cur: nat): seq<Word>
    requires cur <= |doc|
    decreases |doc| - cur
  {
    var t := ReadToken(doc, cur);
    if t.end == t.start then [] else [Word(t.kind, doc[t.start..t.end])] + Stream(doc, t.end)
  }

  predicate Comments(ws: seq<Word>) { forall i :: 0 <= i < |ws| ==> ws[i].kind == Comment }

  // --------------------------------------------------------------- grammar

  function Unquoted(text: string): string { if |text| >= 2 then text[1..|text| - 1] else "" }

  predicate NumberWord(src: Source, text: string, p: Payload) {
    DecodeNumber(text) == Integer(p) || (DecodeNumber(text).AsDouble? && p.Real? && src.toDouble(text) == Some(p.r))
  }

  predicate StringWord(text: string, p: Payload) {
    Unescape(Unquoted(text)).Text? && StringPayload(Unescape(Unquoted(text)).text) == Some(p)
  }

  /** The words of a value. */
  ghost predicate ValueWords(src: Source, ws: seq<Word>, p: Payload)
    decreases |ws|, 1
  {
    if ws == [] then src.features.allowDroppedNull && p == Null
    else
      match ws[0].kind
      case Comment => src.features.allowComments && ValueWords(src, ws[1..], p)
      case NullWord => |ws| == 1 && p == Null
      case True => |ws| == 1 && p == Bool(true)
      case False => |ws| == 1 && p == Bool(false)
      case Number => |ws| == 1 && NumberWord(src, ws[0].text, p)
      case StringText => |ws| == 1 && StringWord(ws[0].text, p)
      case ArrayBegin => p.Array? && ArrayWords(src, ws[1..], p.items)
      case ObjectBegin => p.Object? && MemberWords(src, ws[1..], "", [], p.items)
      case _ => false
  }

  ghost predicate ArrayWords(src: Source, ws: seq<Word>, items: seq<Entry>)
    decreases |ws|, 1
  {
    (|ws| == 1 && ws[0].kind == ArrayEnd && items == []) || ElementWords(src, ws, 0, items)
  }

  /** The elements from the i-th on: a value, comments, and a comma or the closing bracket. */
  ghost predicate ElementWords(src: Source, ws: seq<Word>, i: nat, items: seq<Entry>)
    decreases |ws|, 0
  {
    exists k: nat, m: nat :: ElementCut(src, ws, i, items, k, m)
  }

  ghost predicate ElementCut(src: Source, ws: seq<Word>, i: nat, items: seq<Entry>, k: nat, m: nat)
    decreases |ws|, -1
  {
    && k <= m < |ws| && i < |items| && items[i].key == Index(i)
    && ValueWords(src, ws[..k], items[i].value.payload) && Comments(ws[k..m])
    && if i + 1 == |items| then ws[m].kind == ArrayEnd && m + 1 == |ws|
       else ws[m].kind == ArraySeparator && ElementWords(src, ws[m + 1..], i + 1, items)
  }

  /** The members after one called `name`, filed one by one: the closing brace if that name is
      empty; or a name, a colon, a value, and the brace or a separator. */
  ghost predicate MemberWords(src: Source, ws: seq<Word>, name: string, before: seq<Entry>, items: seq<Entry>)
    decreases |ws|, 0
  {
    || (exists c: nat :: BraceAt(ws, c) && name == "" && items == before)
    || (exists c: nat, k: nat, m: nat, v: Value :: MemberCut(src, ws, before, items, c, k, m, v))
  }

  predicate BraceAt(ws: seq<Word>, c: nat) { |ws| == c + 1 && Comments(ws[..c]) && ws[c].kind == ObjectEnd }

  ghost predicate MemberCut(src: Source, ws: seq<Word>, before: seq<Entry>, items: seq<Entry>, c: nat, k: nat, m: nat, v: Value)
    decreases |ws|, -1
  {
    && c + 2 <= k <= m < |ws| && Comments(ws[..c])
    && ws[c].kind == StringText && ws[c + 1].kind == MemberSeparator && Unescape(Unquoted(ws[c].text)).Text?
    && ValueWords(src, ws[c + 2..k], v.payload) && Comments(ws[k..m])
    && var name := Unescape(Unquoted(ws[c].text)).text;
       var now := Put(before, MemberKey(name), v);
       if ws[m].kind == ObjectEnd then m + 1 == |ws| && items == now
       else ws[m].kind != Comment && (ws[m].kind == ArraySeparator || k < m) && MemberWords(src, ws[m + 1..], name, now, items)
  }

  // ---------------------------------------------------------------- lexing

  /** A token that is there is the first of the stream, also from its own start. */
  lemma {:induction false} StreamHead(doc: string, cur: nat)
    requires cur <= |doc|
    ensures var t := ReadToken(doc, cur);
            && ReadToken(doc, t.start) == t
            && Stream(doc, t.start) == Stream(doc, cur)
            && (t.end > t.start ==> Stream(doc, cur) == [Word(t.kind, doc[t.start..t.end])] + Stream(doc, t.end))
  {
    hide Lex;
    var s := doc[cur..];
    SpacesEnd(s);
    DropDrop(doc, cur, SpaceRun(s));
  }

  lemma {:induction false} SpacesEnd(s: string)
    ensures SpaceRun(s[SpaceRun(s)..]) == 0
  {
    if s != "" && IsSpace(s[0]) {
      SpacesEnd(s[1..]);
      assert s[SpaceRun(s)..] == s[1..][SpaceRun(s[1..])..];
    }
  }

  /** The comments in front of a token. */
  lemma {:induction false} CommentsSkipped(doc: string, cur: nat) returns (cs: seq<Word>)
    requires cur <= |doc|
    ensures var t := NonComment(doc, cur);
            && Comments(cs) && Stream(doc, cur) == cs + Stream(doc, t.start) && ReadToken(doc, t.start) == t
            && (ReadToken(doc, cur).kind == Comment <==> cs != []) && (cs == [] ==> t == ReadToken(doc, cur))
    decreases |doc| - cur
  {
    hide ReadToken, Stream;
    StreamHead(doc, cur);
    var t := ReadToken(doc, cur);
    if t.kind == Comment {
      var more := CommentsSkipped(doc, t.end);
      cs := [Word(t.kind, doc[t.start..t.end])] + more;
    } else {
      cs := [];
    }
  }

  lemma {:induction false} ValueTokenSkipped(src: Source, cur: nat) returns (cs: seq<Word>)
    requires cur <= |src.doc|
    ensures var t := ValueToken(src, cur);
            && Comments(cs) && (cs == [] || src.features.allowComments)
            && Stream(src.doc, cur) == cs + Stream(src.doc, t.start) && ReadToken(src.doc, t.start) == t
  {
    hide ReadToken, Stream, NonComment;
    if src.features.allowComments {
      cs := CommentsSkipped(src.doc, cur);
    } else {
      StreamHead(src.doc, cur);
      cs := [];
    }
  }

  /** Comments in front of the words of a value. */
  lemma {:induction false} BehindTheComments(src: Source, cs: seq<Word>, ws: seq<Word>, p: Payload)
    requires Comments(cs) && (cs == [] || src.features.allowComments) && ValueWords(src, ws, p)
    ensures ValueWords(src, cs + ws, p)
    decreases |cs|
  {
    hide ValueWords;
    if cs == [] {
      assert cs + ws == ws;
    } else {
      BehindTheComments(src, cs[1..], ws, p);
      BehindComment(src, cs[0], cs[1..] + ws, p);
      assert cs + ws == [cs[0]] + (cs[1..] + ws);
    }
  }

  lemma {:induction false} BehindComment(src: Source, c: Word, ws: seq<Word>, p: Payload)
    requires c.kind == Comment && src.features.allowComments && ValueWords(src, ws, p)
    ensures ValueWords(src, [c] + ws, p)
  {
    hide ArrayWords, MemberWords;
    assert ([c] + ws)[1..] == ws;
  }

  // ------------------------------------------------------------- soundness

  /** The text between the quotes of a token. */
  lemma InnerIsUnquoted(doc: string, t: Token)
    requires t.start <= t.end <= |doc|
    ensures Inner(doc, t) == Unquoted(doc[t.start..t.end])
  {
    if t.end - t.start >= 2 {
      SliceSlice(doc, t.start, t.end, 1, t.end - t.start - 1);
    }
  }

  /** Whatever readValue accepts obeys the grammar, and the value is what the words say. */
  lemma {:induction false} ValueSound(src: Source, cur: nat, depth: int, slot: Value) returns (ws: seq<Word>)
    requires cur <= |src.doc| && ReadValue(src, cur, depth, slot).Done? && ReadValue(src, cur, depth, slot).ok
    ensures var o := ReadValue(src, cur, depth, slot);
            Stream(src.doc, cur) == ws + Stream(src.doc, o.cur) && ValueWords(src, ws, o.value.payload)
    decreases |src.doc| - cur, 1
  {
    hide ReadToken, Stream, NonComment, ReadAt, ValueWords, Comments;
    var t := ValueToken(src, cur);
    var cs := ValueTokenSkipped(src, cur);
    if DropsNull(src, t) {
      Dropped(src);
      BehindTheComments(src, cs, [], Null);
      ws := cs;
      assert cs + [] == cs;
    } else {
      var more := AtSound(src, t, depth, slot);
      BehindTheComments(src, cs, more, ReadValue(src, cur, depth, slot).value.payload);
      ws := cs + more;
    }
  }

  lemma Dropped(src: Source)
    ensures src.features.allowDroppedNull ==> ValueWords(src, [], Null)
  {
  }

  lemma {:induction false} AtSound(src: Source, t: Token, depth: int, slot: Value) returns (ws: seq<Word>)
    requires t.start <= t.end <= |src.doc| && (t.kind != EndOfStream ==> t.start < t.end) && ReadToken(src.doc, t.start) == t
    requires ReadAt(src, t, depth, slot).Done? && ReadAt(src, t, depth, slot).ok
    ensures var o := ReadAt(src, t, depth, slot);
            Stream(src.doc, t.start) == ws + Stream(src.doc, o.cur) && ValueWords(src, ws, o.value.payload)
    decreases |src.doc| - t.start, 0
  {
    hide ReadToken, Stream, NonComment, ReadArray, ReadMembers, ReadNumber, ReadString, ArrayWords, MemberWords;
    StreamHead(src.doc, t.start);
    var w := Word(t.kind, src.doc[t.start..t.end]);
    if t.kind == ArrayBegin {
      var arr := Value(Array([]), t.start, slot.limit);
      var more := ArraySound(src, t.end, depth + 1, arr);
      ws := [w] + more;
      assert ws[1..] == more;
    } else if t.kind == ObjectBegin {
      var obj := Value(Object([]), t.start, slot.limit);
      var more := MembersSound(src, t.end, depth + 1, obj, "");
      ws := [w] + more;
      assert ws[1..] == more;
    } else {
      ws := [w];
      ScalarSound(src, t, depth, slot);
    }
  }

  lemma {:induction false} ScalarSound(src: Source, t: Token, depth: int, slot: Value)
    requires t.start <= t.end <= |src.doc| && t.kind != ArrayBegin && t.kind != ObjectBegin && (t.kind != EndOfStream ==> t.start < t.end)
    requires ReadAt(src, t, depth, slot).Done? && ReadAt(src, t, depth, slot).ok
    ensures var o := ReadAt(src, t, depth, slot);
            o.cur == t.end && ValueWords(src, [Word(t.kind, src.doc[t.start..t.end])], o.value.payload) && t.kind != EndOfStream
  {
    hide Unescape, StringPayload, DecodeNumber;
    InnerIsUnquoted(src.doc, t);
  }

  lemma {:induction false} ArraySound(src: Source, cur: nat, depth: int, arr: Value) returns (ws: seq<Word>)
    requires cur <= |src.doc| && arr.payload == Array([])
    requires ReadArray(src, cur, depth, arr).Done? && ReadArray(src, cur, depth, arr).ok
    ensures var o := ReadArray(src, cur, depth, arr);
            Stream(src.doc, cur) == ws + Stream(src.doc, o.cur) && o.value.payload.Array? && ArrayWords(src, ws, o.value.payload.items)
    decreases |src.doc| - cur, 4
  {
    hide ReadToken, Stream, NonComment, ReadElements, ElementWords;
    var k := cur + SpaceRun(src.doc[cur..]);
    BlanksGone(src.doc, cur);
    if k < |src.doc| && src.doc[k] == ']' {
      StreamHead(src.doc, k);
      BracketRead(src.doc, k);
      ws := [Word(ArrayEnd, src.doc[k..k + 1])];
    } else {
      ws := ElementsSound(src, k, depth, arr, 0);
    }
  }

  lemma {:induction false} BlanksGone(doc: string, cur: nat)
    requires cur <= |doc|
    ensures Stream(doc, cur + SpaceRun(doc[cur..])) == Stream(doc, cur)
  {
    hide Stream, ReadToken;
    StreamHead(doc, cur);
    assert ReadToken(doc, cur).start == cur + SpaceRun(doc[cur..]) by { TokenStart(doc, cur); }
  }

  lemma TokenStart(doc: string, cur: nat)
    requires cur <= |doc|
    ensures ReadToken(doc, cur).start == cur + SpaceRun(doc[cur..])
  {
  }

  lemma BracketRead(doc: string, k: nat)
    requires k < |doc| && doc[k] == ']'
    ensures ReadToken(doc, k) == Token(ArrayEnd, k, k + 1)
  {
    hide StringRun, CommentRun, NumberRun, WordRun;
    assert doc[k..][0] == ']';
  }

  lemma {:induction false} ElementsSound(src: Source, cur: nat, depth: int, arr: Value, i: nat) returns (ws: seq<Word>)
    requires cur <= |src.doc| && arr.payload.Array? && |arr.payload.items| == i && forall j :: 0 <= j < i ==> arr.payload.items[j].key == Index(j)
    requires ReadElements(src, cur, depth, arr, i).Done? && ReadElements(src, cur, depth, arr, i).ok
    ensures var o := ReadElements(src, cur, depth, arr, i);
            && Stream(src.doc, cur) == ws + Stream(src.doc, o.cur) && o.value.payload.Array?
            && |o.value.payload.items| > i && o.value.payload.items[..i] == arr.payload.items
            && ElementWords(src, ws, i, o.value.payload.items)
    decreases |src.doc| - cur, 3
  {
    hide ReadToken, Stream, NonComment, ReadValue, ValueWords, Put, Get, Comments;
    var slot := Get(arr.payload.items, Index(i));
    var o := ReadValue(src, cur, depth, slot);
    var vs := ValueSound(src, cur, depth, slot);
    var items := Put(arr.payload.items, Index(i), o.value);
    PutAppends(arr.payload.items, Index(i), o.value);
    var cs := CommentsSkipped(src.doc, o.cur);
    var t := NonComment(src.doc, o.cur);
    StreamHead(src.doc, t.start);
    var w := Word(t.kind, src.doc[t.start..t.end]);
    var m := |vs| + |cs|;
    if t.kind == ArrayEnd {
      ws := vs + cs + [w];
      Sliced(vs, cs, [w]);
      assert ElementCut(src, ws, i, items, |vs|, m);
    } else {
      var arr1 := WithItem(arr, Index(i), o.value);
      var more := ElementsSound(src, t.end, depth, arr1, i + 1);
      ws := vs + cs + ([w] + more);
      Sliced(vs, cs, [w] + more);
      assert ws[m + 1..] == more;
      var all := ReadElements(src, t.end, depth, arr1, i + 1).value.payload.items;
      assert all[i] == items[i] by { assert all[..i + 1][i] == items[i]; }
      assert all[..i] == all[..i + 1][..i];
      assert ElementCut(src, ws, i, all, |vs|, m);
    }
  }

  lemma Sliced(a: seq<Word>, b: seq<Word>, c: seq<Word>)
    ensures var ws := a + b + c; ws[..|a|] == a && ws[|a|..|a| + |b|] == b && ws[|a| + |b|..] == c
  {
  }

  lemma {:induction false} MembersSound(src: Source, cur: nat, depth: int, obj: Value, name: string) returns (ws: seq<Word>)
    requires cur <= |src.doc| && obj.payload.Object?
    requires ReadMembers(src, cur, depth, obj, name).Done? && ReadMembers(src, cur, depth, obj, name).ok
    ensures var o := ReadMembers(src, cur, depth, obj, name);
            && Stream(src.doc, cur) == ws + Stream(src.doc, o.cur) && o.value.payload.Object?
            && MemberWords(src, ws, name, obj.payload.items, o.value.payload.items)
    decreases |src.doc| - cur, 2
  {
    hide ReadToken, Stream, NonComment, ReadMember, MemberCut, BraceAt, Unescape;
    var t := NonComment(src.doc, cur);
    var cs := CommentsSkipped(src.doc, cur);
    StreamHead(src.doc, t.start);
    var w := Word(t.kind, src.doc[t.start..t.end]);
    var n := ReadName(src, cur, depth, obj, name);
    if n.Named? {
      ws := MemberSound(src, cur, depth, obj, name, cs);
    } else {
      ws := cs + [w];
      assert BraceAt(ws, |cs|) by { BraceIsAt(cs, w); }
    }
  }

  lemma BraceIsAt(cs: seq<Word>, w: Word)
    requires Comments(cs) && w.kind == ObjectEnd
    ensures BraceAt(cs + [w], |cs|)
  {
    assert (cs + [w])[..|cs|] == cs;
  }

  /** A member and what follows it. */
  lemma {:induction false} MemberSound(src: Source, cur: nat, depth: int, obj: Value, name: string, cs: seq<Word>) returns (ws: seq<Word>)
    requires cur <= |src.doc| && obj.payload.Object? && ReadName(src, cur, depth, obj, name).Named?
    requires var t := NonComment(src.doc, cur); Comments(cs) && Stream(src.doc, cur) == cs + Stream(src.doc, t.start) && ReadToken(src.doc, t.start) == t
    requires ReadMembers(src, cur, depth, obj, name).Done? && ReadMembers(src, cur, depth, obj, name).ok
    ensures var o := ReadMembers(src, cur, depth, obj, name);
            && Stream(src.doc, cur) == ws + Stream(src.doc, o.cur) && o.value.payload.Object?
            && MemberWords(src, ws, name, obj.payload.items, o.value.payload.items)
    decreases |src.doc| - cur, 1
  {
    hide ReadToken, Stream, NonComment, ReadValue, ValueWords, Put, Get, Unescape, MemberKey, Comments, Inner, Unquoted, ReadMembers, MemberWords, MemberEnd, ReadName;
    var n := ReadName(src, cur, depth, obj, name);
    NameRead(src, cur, depth, obj, name);
    MemberStep(src, cur, depth, obj, name);
    var t := NonComment(src.doc, cur);
    StreamHead(src.doc, t.start);
    var colon := ReadToken(src.doc, n.cur);
    StreamHead(src.doc, n.cur);
    var a, b := Word(t.kind, src.doc[t.start..t.end]), Word(colon.kind, src.doc[colon.start..colon.end]);
    var key := MemberKey(n.name);
    var slot := Get(obj.payload.items, key);
    var o := ReadValue(src, colon.end, depth, slot);
    var vs := ValueSound(src, colon.end, depth, slot);
    var obj1 := WithItem(obj, key, o.value);
    var end := ReadMembers(src, cur, depth, obj, name);
    var cs2, tail := SeparatorSound(src, o.cur, depth, obj1, n.name, end);
    ws := cs + ([a, b] + (vs + (cs2 + tail)));
    Laid(cs, a, b, vs, cs2, tail);
    Streams(cs, a, b, vs, cs2, tail, Stream(src.doc, end.cur));
    var k := |cs| + 2 + |vs|;
    assert MemberCut(src, ws, obj.payload.items, end.value.payload.items, |cs|, k, k + |cs2|, o.value);
    MemberFits(src, ws, name, obj.payload.items, end.value.payload.items, |cs|, k, k + |cs2|, o.value);
  }

  lemma MemberFits(src: Source, ws: seq<Word>, name: string, before: seq<Entry>, items: seq<Entry>, c: nat, k: nat, m: nat, v: Value)
    requires MemberCut(src, ws, before, items, c, k, m, v)
    ensures MemberWords(src, ws, name, before, items)
  {
    hide MemberCut;
  }

  /** The token of a name. */
  lemma NameRead(src: Source, cur: nat, depth: int, obj: Value, name: string)
    requires cur <= |src.doc| && ReadName(src, cur, depth, obj, name).Named?
    ensures var t, n := NonComment(src.doc, cur), ReadName(src, cur, depth, obj, name);
            && t.kind == StringText && n.cur == t.end && Unescape(Unquoted(src.doc[t.start..t.end])) == Text(n.name)
  {
    hide NonComment, Unescape, Inner, Unquoted, Recover;
    InnerIsUnquoted(src.doc, NonComment(src.doc, cur));
  }

  /** A member that is read, its value, and where the loop goes from there. */
  lemma MemberStep(src: Source, cur: nat, depth: int, obj: Value, name: string)
    requires cur <= |src.doc| && obj.payload.Object? && ReadName(src, cur, depth, obj, name).Named?
    requires ReadMembers(src, cur, depth, obj, name).Done? && ReadMembers(src, cur, depth, obj, name).ok
    ensures var n := ReadName(src, cur, depth, obj, name);
            var colon := ReadToken(src.doc, n.cur);
            var key := MemberKey(n.name);
            var o := ReadValue(src, colon.end, depth, Get(obj.payload.items, key));
            && colon.kind == MemberSeparator && o.Done? && o.ok
            && var obj1 := WithItem(obj, key, o.value);
               var e := MemberEnd(src, o.cur, depth, obj1);
               ReadMembers(src, cur, depth, obj, name) == if e.Return? then e.outcome else ReadMembers(src, e.cur, depth, obj1, n.name)
  {
    hide ReadToken, NonComment, ReadValue, Put, Get, MemberKey, MemberEnd, Recover, ReadName;
    var n := ReadName(src, cur, depth, obj, name);
    var m := ReadMember(src, n.cur, depth, obj, n.name);
    var end := ReadMembers(src, cur, depth, obj, name);
    assert end == if m.Return? then m.outcome else ReadMembers(src, m.cur, depth, m.value, n.name);
    hide ReadMembers;
    var colon := ReadToken(src.doc, n.cur);
    assert colon.kind == MemberSeparator;
    var key := MemberKey(n.name);
    var o := ReadValue(src, colon.end, depth, Get(obj.payload.items, key));
    assert m == ReadMemberValue(src, colon.end, depth, obj, key);
    assert ReadMemberValue(src, colon.end, depth, obj, key) == MemberRead(src, colon.end, depth, obj, key, o);
  }

  /** What stands behind a member: comments, and the brace or a mark and the other members. */
  lemma {:induction false} SeparatorSound(src: Source, cur: nat, depth: int, obj: Value, name: string, end: Outcome) returns (cs: seq<Word>, tail: seq<Word>)
    requires cur <= |src.doc| && obj.payload.Object? && end.Done? && end.ok && end.cur <= |src.doc|
    requires var e := MemberEnd(src, cur, depth, obj); end == if e.Return? then e.outcome else ReadMembers(src, e.cur, depth, obj, name)
    ensures Stream(src.doc, cur) == cs + (tail + Stream(src.doc, end.cur)) && Comments(cs) && end.value.payload.Object?
    ensures tail != [] && tail[0].kind != Comment
    ensures if tail[0].kind == ObjectEnd then |tail| == 1 && end.value.payload.items == obj.payload.items
            else (tail[0].kind == ArraySeparator || cs != []) && MemberWords(src, tail[1..], name, obj.payload.items, end.value.payload.items)
    decreases |src.doc| - cur, 3
  {
    hide ReadToken, Stream, NonComment, Comments, ReadMembers, MemberWords, Recover;
    cs := CommentsSkipped(src.doc, cur);
    var mark := NonComment(src.doc, cur);
    StreamHead(src.doc, mark.start);
    var w := Word(mark.kind, src.doc[mark.start..mark.end]);
    if mark.kind == ObjectEnd {
      tail := [w];
    } else {
      if mark.end == mark.start {
        NothingLeft(src, mark.end, depth, obj, name);
      }
      var more := MembersSound(src, mark.end, depth, obj, name);
      tail := [w] + more;
      assert tail[1..] == more;
    }
  }

  lemma Laid(cs: seq<Word>, a: Word, b: Word, vs: seq<Word>, ds: seq<Word>, tail: seq<Word>)
    ensures var ws := cs + ([a, b] + (vs + (ds + tail)));
            var k := |cs| + 2 + |vs|; var m := k + |ds|;
            && |ws| == m + |tail| && ws[..|cs|] == cs && ws[|cs| + 2..k] == vs && ws[k..m] == ds && ws[m..] == tail
            && ws[|cs|] == a && ws[|cs| + 1] == b
            && (tail != [] ==> ws[m] == tail[0] && ws[m + 1..] == tail[1..])
  {
  }

  lemma Streams(cs: seq<Word>, a: Word, b: Word, vs: seq<Word>, ds: seq<Word>, tail: seq<Word>, rest: seq<Word>)
    ensures cs + ([a] + ([b] + (vs + (ds + (tail + rest))))) == cs + ([a, b] + (vs + (ds + tail))) + rest
  {
  }

  /** At the end of the document no member can begin. */
  lemma {:induction false} NothingLeft(src: Source, cur: nat, depth: int, obj: Value, name: string)
    requires cur <= |src.doc| && obj.payload.Object? && ReadToken(src.doc, cur).end == cur
    ensures ReadMembers(src, cur, depth, obj, name).Done? ==> !ReadMembers(src, cur, depth, obj, name).ok
  {
    hide ReadMember, Recover;
  }

  // -------------------------------------------------------------- documents

  /** A parse that succeeds: the document begins with the words of a value, and the root is
      what they say. */
  lemma ParseSound(src: Source, root: Value) returns (ws: seq<Word>)
    requires Parse(src, root).Done? && Parse(src, root).ok
    ensures ws <= Stream(src.doc, 0) && ValueWords(src, ws, Parse(src, root).value.payload)
    ensures src.features.strictRoot ==> Parse(src, root).value.payload.Container()
  {
    hide Stream, ReadValue, ValueWords, ValueToken;
    ws := ValueSound(src, 0, 0, root);
  }
}
