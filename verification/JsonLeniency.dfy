/** Where Json::Reader, with its default features too, accepts more than RFC 8259 allows
    inside an object, and exactly when. */
module JsonLeniency {
  import opened JsonNormalForm
  import opened JsonNumber
  import opened JsonParse
  import opened JsonRoundTrip
  import opened JsonScanner
  import opened JsonString
  import opened JsonValue
  import opened JsonWriter
  import opened Options

  // ------------------------------------------------------------- comments

  predicate EndsComment(s: string, i: nat) { i + 1 < |s| && s[i] == '*' && s[i + 1] == '/' }

  /** A comment is closed by its end mark or by a slash at the very end of the text. */
  lemma {:induction false} CommentClosedIff(s: string)
    ensures CStyleRun(s).ok <==> (exists i: nat :: EndsComment(s, i)) || (s != "" && s[|s| - 1] == '/')
  {
    if |s| >= 2 {
      CommentClosedIff(s[1..]);
      assert s[1..][|s[1..]| - 1] == s[|s| - 1];
      if EndsComment(s, 0) {
        assert CStyleRun(s).ok;
      } else {
        forall i: nat ensures EndsComment(s, i + 1) <==> EndsComment(s[1..], i) { }
        if i: nat :| EndsComment(s, i) { assert i > 0 && EndsComment(s[1..], i - 1); }
        if i: nat :| EndsComment(s[1..], i) { assert EndsComment(s, i + 1); }
      }
    }
  }

  /** A slash, a star and a slash are a whole comment at the end of a text. */
  lemma SlashStarSlash()
    ensures Lex("/*/") == Lexeme(Comment, 3)
  {
    assert "/*/"[1..] == "*/" && "*/"[1..] == "/";
  }

  // ----------------------------------------------------------- separators

  const BRACE := Word(ObjectEnd, "}")

  predicate AllComments(ws: seq<Word>) { forall i :: 0 <= i < |ws| ==> ws[i].kind == Comment }

  /** A comma, or after a comment any token but the closing brace. */
  predicate Separates(comments: seq<Word>, mark: Word) {
    && AllComments(comments) && mark.kind !in {Comment, EndOfStream, ObjectEnd}
    && (comments == [] ==> mark.kind == ArraySeparator)
  }

  /** The first token behind some comments. */
  lemma {:induction false} BehindComments(src: Source, cur: nat, comments: seq<Word>, mark: Word, tail: seq<Word>)
    requires cur <= |src.doc| && AllComments(comments) && mark.kind !in {Comment, EndOfStream}
    requires Tokens(src.doc[cur..]) == comments + ([mark] + tail)
    ensures var t := NonComment(src.doc, cur); t.kind == mark.kind && Tokens(src.doc[t.end..]) == tail
    ensures ReadToken(src.doc, cur).kind == (if comments == [] then mark.kind else Comment)
    decreases |comments|
  {
    hide Tokens, ReadToken;
    if comments == [] {
      assert comments + ([mark] + tail) == [mark] + tail;
      Head(src, cur, mark, tail);
    } else {
      ReadTokenIsHead(src.doc, cur);
      var t := ReadToken(src.doc, cur);
      var ws := comments + ([mark] + tail);
      assert ws[0] == comments[0] && ws[1..] == comments[1..] + ([mark] + tail);
      assert t.kind != EndOfStream;
      var w := Word(t.kind, src.doc[t.start..t.end]);
      assert ([w] + Tokens(src.doc[t.end..]))[0] == w && ([w] + Tokens(src.doc[t.end..]))[1..] == Tokens(src.doc[t.end..]);
      BehindComments(src, t.end, comments[1..], mark, tail);
    }
  }

  /** After a member the reader goes on exactly at a separator, ends the object at the
      brace, and fails at anything else. */
  lemma SeparatorIff(src: Source, cur: nat, depth: int, obj: Value, comments: seq<Word>, mark: Word, tail: seq<Word>)
    requires cur <= |src.doc| && AllComments(comments) && mark.kind !in {Comment, EndOfStream}
    requires Tokens(src.doc[cur..]) == comments + ([mark] + tail)
    ensures var m := MemberEnd(src, cur, depth, obj);
            && (m.Again? <==> Separates(comments, mark))
            && (m.Again? ==> m.value == obj && m.cur <= |src.doc| && Tokens(src.doc[m.cur..]) == tail)
            && (m.Return? ==> m.outcome.Done? && (m.outcome.ok <==> mark.kind == ObjectEnd))
            && (m.Return? && m.outcome.ok ==> m.outcome.value == obj && m.outcome.cur <= |src.doc| && Tokens(src.doc[m.outcome.cur..]) == tail)
  {
    hide Tokens, ReadToken, NonComment, Recover;
    BehindComments(src, cur, comments, mark, tail);
  }

  // -------------------------------------------------------------- members

  /** A member followed by a separator. */
  datatype Line = Line(name: string, value: Value, comments: seq<Word>, mark: Word)

  function MemberWords(name: string, value: Value): seq<Word> {
    [Word(StringText, Quoted(name)), COLON] + Words(false, value)
  }

  function LineWords(l: Line): seq<Word> { MemberWords(l.name, l.value) + (l.comments + [l.mark]) }

  function LinesWords(ls: seq<Line>): seq<Word> {
    if ls == [] then [] else LineWords(ls[0]) + LinesWords(ls[1..])
  }

  /** A value that can be read at a depth. */
  predicate Readable(v: Value, depth: int) { WellFormed(v) && RealFree(v) && depth + Levels(v) <= STACK_LIMIT }

  predicate LinesReadable(ls: seq<Line>, depth: int) {
    forall i :: 0 <= i < |ls| ==> Readable(ls[i].value, depth) && Separates(ls[i].comments, ls[i].mark)
  }

  function LastName(ls: seq<Line>, name: string): string { if ls == [] then name else ls[|ls| - 1].name }

  /** A colon and a value in front of any tokens are read and filed. */
  lemma {:induction false} ValueRead(src: Source, cur: nat, depth: int, obj: Value, name: string, v: Value, tail: seq<Word>)
    requires cur <= |src.doc| && obj.payload.Object? && Readable(v, depth)
    requires Tokens(src.doc[cur..]) == [COLON] + (Words(false, v) + tail)
    ensures exists c: nat, w: Value ::
              && c <= |src.doc| && w.payload.Object? && Tokens(src.doc[c..]) == tail
              && ReadMember(src, cur, depth, obj, name) == MemberEnd(src, c, depth, w)
  {
    hide Tokens, ReadValue, Words, NonComment, ReadToken, MemberEnd, Get, Put, Recover, WellFormed, RealFree, Levels;
    Head(src, cur, COLON, Words(false, v) + tail);
    var colon := ReadToken(src.doc, cur);
    var slot := Get(obj.payload.items, MemberKey(name));
    ReadValueBack(false, src, colon.end, depth, slot, v, tail);
    var o := ReadValue(src, colon.end, depth, slot);
    var w := WithItem(obj, MemberKey(name), o.value);
    assert ReadMember(src, cur, depth, obj, name) == MemberEnd(src, o.cur, o.depth, w);
  }

  /** Reading members with their separators leads to the tokens behind them. */
  lemma {:induction false} LinesRead(src: Source, cur: nat, depth: int, obj: Value, name: string, ls: seq<Line>, tail: seq<Word>)
      returns (c: nat, w: Value)
    requires cur <= |src.doc| && obj.payload.Object? && LinesReadable(ls, depth)
    requires Tokens(src.doc[cur..]) == LinesWords(ls) + tail
    ensures c <= |src.doc| && w.payload.Object? && Tokens(src.doc[c..]) == tail
    ensures ReadMembers(src, cur, depth, obj, name) == ReadMembers(src, c, depth, w, LastName(ls, name))
    decreases |ls|
  {
    hide Tokens, ReadName, ReadMember, MemberEnd, Readable, Quoted;
    if ls == [] {
      assert LinesWords(ls) + tail == tail;
      return cur, obj;
    }
    var l := ls[0];
    var more := LinesWords(ls[1..]) + tail;
    assert Readable(l.value, depth) && Separates(l.comments, l.mark);
    LineSplits(l, LinesWords(ls[1..]), tail);
    NameRead(src, cur, depth, obj, name, l.name, [COLON] + (Words(false, l.value) + (l.comments + ([l.mark] + more))));
    var n := ReadName(src, cur, depth, obj, name);
    ValueRead(src, n.cur, depth, obj, l.name, l.value, l.comments + ([l.mark] + more));
    var c1: nat, w1: Value :| && c1 <= |src.doc| && w1.payload.Object? && Tokens(src.doc[c1..]) == l.comments + ([l.mark] + more)
                              && ReadMember(src, n.cur, depth, obj, l.name) == MemberEnd(src, c1, depth, w1);
    SeparatorIff(src, c1, depth, w1, l.comments, l.mark, more);
    var m := ReadMember(src, n.cur, depth, obj, l.name);
    assert LinesReadable(ls[1..], depth) by { assert forall i :: 0 <= i < |ls[1..]| ==> ls[1..][i] == ls[i + 1]; }
    c, w := LinesRead(src, m.cur, depth, m.value, l.name, ls[1..], tail);
    assert LastName(ls, name) == LastName(ls[1..], l.name);
  }

  lemma {:induction false} LineSplits(l: Line, later: seq<Word>, tail: seq<Word>)
    ensures LineWords(l) + later + tail ==
            [Word(StringText, Quoted(l.name))] + ([COLON] + (Words(false, l.value) + (l.comments + ([l.mark] + (later + tail)))))
  {
    hide Words, Quoted;
  }

  // -------------------------------------------------- a separator too many

  /** Members each followed by a separator, and then the closing brace: the object is
      accepted exactly when the last name is empty. */
  lemma TrailingSeparatorIff(src: Source, cur: nat, depth: int, obj: Value, ls: seq<Line>, rest: seq<Word>)
    requires cur <= |src.doc| && obj.payload.Object? && LinesReadable(ls, depth)
    requires Tokens(src.doc[cur..]) == LinesWords(ls) + ([BRACE] + rest)
    ensures var o := ReadMembers(src, cur, depth, obj, "");
            && o.Done? && (o.ok <==> LastName(ls, "") == "")
            && (o.ok ==> o.cur <= |src.doc| && Tokens(src.doc[o.cur..]) == rest && o.value.payload.Object?)
  {
    hide Tokens, NonComment, ReadToken, Recover, LinesReadable, LinesWords;
    var c, w := LinesRead(src, cur, depth, obj, "", ls, [BRACE] + rest);
    Head(src, c, BRACE, rest);
  }

  /** Members each followed by a separator, one more member, and the closing brace behind
      it: the object is accepted whatever tokens the comments let through as commas. */
  lemma SeparatedObject(src: Source, cur: nat, depth: int, obj: Value, ls: seq<Line>, last: Line, rest: seq<Word>)
    requires cur <= |src.doc| && obj.payload.Object? && LinesReadable(ls, depth)
    requires Readable(last.value, depth) && AllComments(last.comments) && last.mark == BRACE
    requires Tokens(src.doc[cur..]) == LinesWords(ls) + (LineWords(last) + rest)
    ensures var o := ReadMembers(src, cur, depth, obj, "");
            o.Done? && o.ok && o.value.payload.Object? && o.cur <= |src.doc| && Tokens(src.doc[o.cur..]) == rest
  {
    hide Tokens, ReadName, ReadMember, MemberEnd, Readable, Quoted, LinesReadable, LinesWords, LineWords;
    var c, w := LinesRead(src, cur, depth, obj, "", ls, LineWords(last) + rest);
    LineSplits(last, [], rest);
    assert LineWords(last) + [] + rest == LineWords(last) + rest && [] + rest == rest;
    NameRead(src, c, depth, w, LastName(ls, ""), last.name, [COLON] + (Words(false, last.value) + (last.comments + ([BRACE] + rest))));
    var n := ReadName(src, c, depth, w, LastName(ls, ""));
    ValueRead(src, n.cur, depth, w, last.name, last.value, last.comments + ([BRACE] + rest));
    var c1: nat, w1: Value :| && c1 <= |src.doc| && w1.payload.Object? && Tokens(src.doc[c1..]) == last.comments + ([BRACE] + rest)
                              && ReadMember(src, n.cur, depth, w, last.name) == MemberEnd(src, c1, depth, w1);
    SeparatorIff(src, c1, depth, w1, last.comments, BRACE, rest);
  }

  // ------------------------------------------------------ whole documents

  const OPEN := Word(ObjectBegin, "{")

  /** A document that is one object with a separator too many parses exactly when the last
      name is empty. */
  lemma DocumentTrailingIff(src: Source, root: Value, ls: seq<Line>)
    requires LinesReadable(ls, 1) && Tokens(src.doc) == [OPEN] + (LinesWords(ls) + [BRACE])
    ensures var o := Parse(src, root); o.Done? && (o.ok <==> LastName(ls, "") == "")
  {
    hide Tokens, ReadMembers, NonComment, ReadToken, LinesReadable, LinesWords;
    assert src.doc[0..] == src.doc;
    var body := LinesWords(ls) + [BRACE];
    Head(src, 0, OPEN, body);
    var t := ReadToken(src.doc, 0);
    assert body == LinesWords(ls) + ([BRACE] + []);
    TrailingSeparatorIff(src, t.end, 1, Value(Object([]), t.start, root.limit), ls, []);
    ObjectOpens(src, root);
  }

  lemma ObjectOpens(src: Source, root: Value)
    requires ValueToken(src, 0).kind == ObjectBegin
    ensures var t := ValueToken(src, 0);
            var o := ReadMembers(src, t.end, 1, Value(Object([]), t.start, root.limit), "");
            && (Parse(src, root).Done? <==> o.Done?)
            && (o.Done? && o.ok && o.value.payload.Object? ==> Parse(src, root).ok)
            && (o.Done? && !o.ok ==> !Parse(src, root).ok)
  {
    hide ReadMembers, NonComment, ReadToken, ValueToken;
    var t := ValueToken(src, 0);
    assert ReadValue(src, 0, 0, root) == ReadAt(src, t, 0, root);
    assert ReadAt(src, t, 0, root) == Close(ReadMembers(src, t.end, 1, Value(Object([]), t.start, root.limit), ""));
  }

  /** The same with one more member: any token that a comment lets through as a comma. */
  lemma DocumentSeparated(src: Source, root: Value, ls: seq<Line>, last: Line)
    requires LinesReadable(ls, 1) && Readable(last.value, 1) && AllComments(last.comments) && last.mark == BRACE
    requires Tokens(src.doc) == [OPEN] + (LinesWords(ls) + LineWords(last))
    ensures Parse(src, root).Done? && Parse(src, root).ok
  {
    hide Tokens, ReadMembers, NonComment, ReadToken, LinesReadable, LinesWords, LineWords, Readable;
    assert src.doc[0..] == src.doc;
    var body := LinesWords(ls) + LineWords(last);
    Head(src, 0, OPEN, body);
    var t := ReadToken(src.doc, 0);
    assert body == LinesWords(ls) + (LineWords(last) + []);
    SeparatedObject(src, t.end, 1, Value(Object([]), t.start, root.limit), ls, last, []);
    ObjectOpens(src, root);
  }

  // ------------------------------------------------------------ witnesses

  const ONE := Value(Int(1), 0, 0)

  lemma {:induction false} OneReadable(name: string, depth: int)
    requires depth < STACK_LIMIT
    ensures Readable(ONE, depth) && MemberWords(name, ONE) == [Word(StringText, Quoted(name)), COLON, Word(Number, "1")]
  {
    assert SignedDecimal(1) == "1";
  }

  /** The tokens of a member whose value is 1. */
  lemma {:induction false} MemberTokens(name: string, rest: string)
    requires EndsNumber(rest)
    ensures Tokens(Quoted(name) + (":1" + rest)) == MemberWords(name, ONE) + Tokens(rest)
  {
    OneReadable(name, 0);
    OneToken(rest);
    hide Tokens, Quoted, MemberWords, IsToken, EndsNumber;
    var one, q := "1" + rest, Quoted(name);
    QuotedIsToken(name, ":" + one);
    TokenInFront(StringText, q, ":" + one);
    WordToken(MemberSeparator, ":", one);
    ColonOne(rest);
    Regrouped(Word(StringText, q), Word(Number, "1"), Tokens(rest));
  }

  lemma ColonOne(rest: string)
    ensures ":1" + rest == ":" + ("1" + rest)
  {
  }

  lemma Regrouped(name: Word, one: Word, rest: seq<Word>)
    ensures [name] + ([COLON] + ([one] + rest)) == [name, COLON, one] + rest
  {
  }

  lemma OneToken(rest: string)
    requires EndsNumber(rest)
    ensures Tokens("1" + rest) == [Word(Number, "1")] + Tokens(rest)
  {
    assert SignedDecimal(1) == "1";
    SignedDecimalIsToken(1, rest);
    TokenInFront(Number, "1", rest);
  }

  /** {"name":1,} */
  function TrailingComma(name: string): string { "{" + (Quoted(name) + (":1" + ("," + "}"))) }

  /** A comma behind the only member is accepted exactly when the member has no name. */
  lemma {:induction false} TrailingCommaIff(name: string, features: Features, toDouble: string -> Option<real>, root: Value)
    ensures var o := Parse(Source(TrailingComma(name), features, toDouble), root); o.Done? && (o.ok <==> name == "")
  {
    hide Tokens, Parse, Quoted, Readable;
    var l := Line(name, ONE, [], COMMA);
    OneReadable(name, 1);
    MemberTokens(name, "," + "}");
    WordToken(ObjectBegin, "{", Quoted(name) + (":1" + ("," + "}")));
    WordToken(ArraySeparator, ",", "}");
    WordToken(ObjectEnd, "}", "");
    NoTokens();
    assert "}" + "" == "}";
    assert LinesWords([l]) == MemberWords(name, ONE) + [COMMA] by { assert [l][1..] == []; }
    DocumentTrailingIff(Source(TrailingComma(name), features, toDouble), root, [l]);
  }

  lemma NoTokens()
    ensures Tokens("") == []
  {
  }

  lemma EmptyNameWitness()
    ensures TrailingComma("") == "{\"\":1,}" && TrailingComma("a") == "{\"a\":1,}"
  {
    assert EscapeAll("a") == "a" by { assert "a"[1..] == ""; }
  }

  /** {"a":1/**/:"b":1} */
  const COMMENTED := "{" + (Quoted("a") + (":1" + ("/**/" + (":" + (Quoted("b") + (":1" + "}"))))))

  /** Behind a comment a colon does for a comma. */
  lemma CommentedWitness(features: Features, toDouble: string -> Option<real>, root: Value)
    ensures var o := Parse(Source(COMMENTED, features, toDouble), root); o.Done? && o.ok
  {
    CommentedTokens();
    hide Tokens, Parse, Quoted, Readable, MemberWords, COMMENTED;
    var comment := Word(Comment, "/**/");
    var l, last := Line("a", ONE, [comment], COLON), Line("b", ONE, [], BRACE);
    OneReadable("a", 1);
    OneReadable("b", 1);
    assert LinesWords([l]) == LineWords(l) by { assert [l][1..] == []; }
    DocumentSeparated(Source(COMMENTED, features, toDouble), root, [l], last);
  }

  lemma CommentedText()
    ensures COMMENTED == "{\"a\":1/**/:\"b\":1}"
  {
    assert Quoted("a") == "\"a\"" by { assert "a"[1..] == ""; }
    assert Quoted("b") == "\"b\"" by { assert "b"[1..] == ""; }
  }

  lemma CommentedTokens()
    ensures Tokens(COMMENTED) ==
            [OPEN] + (MemberWords("a", ONE) + ([Word(Comment, "/**/")] + [COLON]) + (MemberWords("b", ONE) + ([] + [BRACE])))
  {
    hide Tokens, Quoted, MemberWords;
    var end := Quoted("b") + (":1" + "}");
    MemberTokens("b", "}");
    WordToken(ObjectEnd, "}", "");
    assert "}" + "" == "}";
    NoTokens();
    WordToken(MemberSeparator, ":", end);
    CommentToken(":" + end);
    MemberTokens("a", "/**/" + (":" + end));
    WordToken(ObjectBegin, "{", Quoted("a") + (":1" + ("/**/" + (":" + end))));
  }

  lemma {:induction false} CommentToken(rest: string)
    ensures Tokens("/**/" + rest) == [Word(Comment, "/**/")] + Tokens(rest)
  {
    var s := "/**/" + rest;
    assert s[1..] == "**/" + rest && s[1..][1..] == "*/" + rest;
    assert IsToken(Comment, "/**/", rest);
    TokenInFront(Comment, "/**/", rest);
  }
}
