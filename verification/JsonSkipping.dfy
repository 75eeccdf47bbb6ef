/** What the reader passes over: comments, and after an error everything up to a token. */
module JsonSkipping {
  import opened JsonAccepted
  import opened JsonParse
  import opened JsonScanner

  // -------------------------------------------------------------- comments

  /** A comment of two slashes runs to the end of its line, the line end included. */
  lemma {:induction false} LineComment(t: string, end: string, rest: string)
    requires '\n' !in t && '\r' !in t
    requires end == "\n" || end == "\r\n" || (end == "\r" && (rest == "" || rest[0] != '\n')) || (end == "" && rest == "")
    ensures IsToken(Comment, "//" + t + end, rest)
  {
    hide StringRun, CStyleRun, NumberRun, WordRun;
    LineEnds(t, end, rest);
    var s := "//" + t + end + rest;
    assert s[1..] == "/" + t + end + rest && s[1..][1..] == t + end + rest;
  }

  lemma {:induction false} LineEnds(t: string, end: string, rest: string)
    requires '\n' !in t && '\r' !in t
    requires end == "\n" || end == "\r\n" || (end == "\r" && (rest == "" || rest[0] != '\n')) || (end == "" && rest == "")
    ensures LineRun(t + end + rest) == |t| + |end|
    decreases |t|
  {
    var s := t + end + rest;
    if t == "" {
      assert s == end + rest;
    } else {
      assert s[0] == t[0] && t[0] in t && s[1..] == t[1..] + end + rest;
      LineEnds(t[1..], end, rest);
    }
  }

  /** A comment of slash and star runs to the first star and slash. */
  lemma {:induction false} BlockComment(t: string, rest: string)
    requires forall i :: 0 <= i < |t| - 1 ==> !(t[i] == '*' && t[i + 1] == '/')
    ensures IsToken(Comment, "/*" + t + "*/", rest)
  {
    hide StringRun, LineRun, NumberRun, WordRun;
    BlockEnds(t, rest);
    var s := "/*" + t + "*/" + rest;
    assert s[1..] == "*" + t + "*/" + rest && s[1..][1..] == t + "*/" + rest;
  }

  lemma {:induction false} BlockEnds(t: string, rest: string)
    requires forall i :: 0 <= i < |t| - 1 ==> !(t[i] == '*' && t[i + 1] == '/')
    ensures CStyleRun(t + "*/" + rest) == Run(|t| + 2, true)
    decreases |t|
  {
    var s := t + "*/" + rest;
    if t == "" {
      assert s == "*/" + rest;
    } else {
      assert s[0] == t[0] && s[1] == (if |t| > 1 then t[1] else '*') && s[1..] == t[1..] + "*/" + rest;
      BlockEnds(t[1..], rest);
    }
  }

  // -------------------------------------------------------------- recovery

  /** The first token of a kind, among words without the end of the stream. */
  predicate FirstOf(ws: seq<Word>, kind: TokenType) {
    ws != [] && ws[|ws| - 1].kind in {kind, EndOfStream} && forall i :: 0 <= i < |ws| - 1 ==> ws[i].kind !in {kind, EndOfStream}
  }

  /** After an error the reader is behind the first token of the kind it was looking for, or
      behind a NUL in front of it, or else at the end of the document. */
  lemma {:induction false} RecoverIs(doc: string, cur: nat, until: TokenType) returns (ws: seq<Word>)
    requires cur <= |doc|
    ensures var c := Recover(doc, cur, until);
            && Stream(doc, cur) == ws + Stream(doc, c)
            && (FirstOf(ws, until) || (c == |doc| && forall i :: 0 <= i < |ws| ==> ws[i].kind !in {until, EndOfStream}))
    decreases |doc| - cur
  {
    hide Stream, ReadToken;
    StreamHead(doc, cur);
    var t := ReadToken(doc, cur);
    var w := Word(t.kind, doc[t.start..t.end]);
    if t.kind == until || t.kind == EndOfStream {
      if t.end > t.start {
        ws := [w];
      } else {
        EmptyToken(doc, cur);
        ws := [];
      }
    } else {
      var more := RecoverIs(doc, t.end, until);
      ws := [w] + more;
    }
  }

  lemma EmptyToken(doc: string, cur: nat)
    requires cur <= |doc| && ReadToken(doc, cur).end == ReadToken(doc, cur).start
    ensures ReadToken(doc, cur).end == |doc| && Stream(doc, cur) == Stream(doc, |doc|) == []
  {
  }
}
