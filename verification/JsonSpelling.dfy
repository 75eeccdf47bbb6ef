/** Section 7 of RFC 8259: how the characters of a string may be spelled, with tables of its
    own, and what the reader and the writer make of spellings. */
module JsonSpelling {
  import opened JsonScanner
  import opened JsonString
  import opened Numerals
  import opened Slices
  import opened Utf8

  // ------------------------------------------------------------ the table

  /** A letter behind a backslash and the code number of the character it stands for. */
  const SHORT: seq<(char, nat)> :=
    [('"', 0x22), ('\\', 0x5C), ('/', 0x2F), ('b', 0x08), ('f', 0x0C), ('n', 0x0A), ('r', 0x0D), ('t', 0x09)]

  predicate ShortForm(letter: char, code: nat) { (letter, code) in SHORT }

  /** A backslash, a u and four hexadecimal digits of either case. */
  ghost predicate CodeUnit(e: string, n: nat) {
    |e| == 6 && e[0] == '\\' && e[1] == 'u' && Writes(e[2..], 16, n)
  }

  /** The code units of a character number: itself, or a surrogate pair. */
  ghost predicate Units(e: string, cp: nat) {
    if |e| == 6 then CodeUnit(e, cp) && IsScalar(cp)
    else
      |e| == 12 && exists hi: nat, lo: nat ::
        && CodeUnit(e[..6], hi) && CodeUnit(e[6..], lo) && 0xD800 <= hi <= 0xDBFF && 0xDC00 <= lo <= 0xDFFF
        && cp == 0x10000 + (hi - 0xD800) * 0x400 + (lo - 0xDC00)
  }

  /** A spelling of one character, and the bytes it stands for.  The reader takes a bare
      control character too. */
  ghost predicate Spelling(e: string, bytes: string) {
    || (|e| == 1 && e[0] != '"' && e[0] != '\\' && bytes == e)
    || (|e| == 2 && e[0] == '\\' && |bytes| == 1 && ShortForm(e[1], bytes[0] as nat))
    || (exists cp: nat :: Units(e, cp) && Encodes(bytes, cp))
  }

  ghost predicate Spellings(es: seq<string>, ts: seq<string>) {
    |es| == |ts| && forall i :: 0 <= i < |es| ==> Spelling(es[i], ts[i])
  }

  // -------------------------------------------------------------- reading

  lemma HexIs(c: char, d: nat)
    requires DigitIs(c, d)
    ensures IsHex(c) && HexValue(c) == d
  {
  }

  lemma CodeUnitReads(e: string, n: nat, rest: string)
    requires CodeUnit(e, n)
    ensures Hex4((e + rest)[2..]) == Code(n, 4) && n < 0x10000
  {
    var ds: seq<nat> :| Numeral(e[2..], ds, 16) && PlaceValue(ds, 16) == n;
    var h := (e + rest)[2..];
    forall i | 0 <= i < 4 ensures h[i] == e[2..][i] && IsHex(h[i]) && HexValue(h[i]) == ds[i] { HexIs(e[2..][i], ds[i]); }
    HexPrefix4(h);
    FourPlaces(ds);
  }

  lemma {:induction false} UnitsRead(e: string, cp: nat, rest: string)
    requires Units(e, cp)
    ensures Unescape(e + rest) == Then(CodePointToUTF8(cp), |e|, Unescape(rest))
  {
    hide Hex4, Unescape, CodePointToUTF8;
    var s := e + rest;
    var h := s[2..];
    assert s[|e|..] == rest;
    if |e| == 6 {
      CodeUnitReads(e, cp, rest);
      UnescapeCode(s, h, cp, 4);
    } else {
      var hi: nat, lo: nat :| CodeUnit(e[..6], hi) && CodeUnit(e[6..], lo) && 0xD800 <= hi <= 0xDBFF && 0xDC00 <= lo <= 0xDFFF
                              && cp == 0x10000 + (hi - 0xD800) * 0x400 + (lo - 0xDC00);
      assert s == e[..6] + (e[6..] + rest);
      CodeUnitReads(e[..6], hi, e[6..] + rest);
      CodeUnitReads(e[6..], lo, rest);
      assert h[6..] == (e[6..] + rest)[2..];
      assert h[4] == e[6..][0] && h[5] == e[6..][1];
      SurrogatePair(h, hi, lo);
      UnescapeCode(s, h, cp, 10);
    }
  }

  lemma {:induction false} SpellingRead(e: string, bytes: string, rest: string)
    requires Spelling(e, bytes)
    ensures Unescape(e + rest) == Then(bytes, |e|, Unescape(rest))
  {
    var s := e + rest;
    assert s[|e|..] == rest;
    if |e| == 1 {
      assert s[0] == e[0] && [s[0]] == e;
    } else if |e| == 2 {
      assert s[0] == e[0] && s[1] == e[1];
      assert bytes == [bytes[0]];
    } else {
      var cp: nat :| Units(e, cp) && Encodes(bytes, cp);
      UnitsScalar(e, cp);
      EncoderIsRfc3629(cp, bytes);
      UnitsRead(e, cp, rest);
    }
  }

  lemma UnitsScalar(e: string, cp: nat)
    requires Units(e, cp)
    ensures IsScalar(cp)
  {
  }

  /** Spellings of any kinds in any order decode to the characters they spell, in front of
      anything. */
  lemma {:induction false} SpellingsRead(es: seq<string>, ts: seq<string>, rest: string)
    requires Spellings(es, ts)
    ensures Unescape(Flatten(es) + rest) == Then(Flatten(ts), |Flatten(es)|, Unescape(rest))
  {
    if es == [] {
      assert Flatten(es) + rest == rest;
      ThenNothing(Unescape(rest));
    } else {
      FirstSpelling(es, ts);
      hide Spelling, Spellings;
      SpellingsRead(es[1..], ts[1..], rest);
      SpellingRead(es[0], ts[0], Flatten(es[1..]) + rest);
      assert Flatten(es) + rest == es[0] + (Flatten(es[1..]) + rest);
      hide Unescape;
      ThenThen(ts[0], |es[0]|, Flatten(ts[1..]), |Flatten(es[1..])|, Unescape(rest));
    }
  }

  lemma {:induction false} FirstSpelling(es: seq<string>, ts: seq<string>)
    requires Spellings(es, ts) && es != []
    ensures ts != [] && Spelling(es[0], ts[0]) && Spellings(es[1..], ts[1..])
  {
    hide Spelling;
    assert forall i :: 0 <= i < |es[1..]| ==> es[1..][i] == es[i + 1] && ts[1..][i] == ts[i + 1];
  }

  lemma ThenNothing(u: Unescaped)
    ensures Then("", 0, u) == u
  {
    if u.Text? { assert "" + u.text == u.text; }
  }

  lemma SpellingsDecode(es: seq<string>, ts: seq<string>)
    requires Spellings(es, ts)
    ensures Unescape(Flatten(es)) == Text(Flatten(ts))
  {
    SpellingsRead(es, ts, "");
    assert Flatten(es) + "" == Flatten(es) && Flatten(ts) + "" == Flatten(ts);
  }

  /** Behind any spellings a backslash is refused exactly in front of a letter that is not in
      the table nor a u. */
  lemma OtherLettersRefused(es: seq<string>, ts: seq<string>, letter: char, rest: string)
    requires Spellings(es, ts) && letter != 'u'
    ensures Unescape(Flatten(es) + (['\\', letter] + rest)) == Bad(UnknownEscape, |Flatten(es)| + 2) <==>
            forall code :: !ShortForm(letter, code)
  {
    var s := ['\\', letter] + rest;
    SpellingsRead(es, ts, s);
    if code: nat :| ShortForm(letter, code) {
      assert Spelling(['\\', letter], [code as char]);
      SpellingRead(['\\', letter], [code as char], rest);
      ProblemsLieInside(rest);
    } else {
      OtherLetter(letter, rest);
    }
  }

  lemma {:induction false} ProblemsLieInside(s: string)
    ensures Unescape(s).Bad? ==> Unescape(s).at > 0
    decreases |s|
  {
    if s != "" && s[0] != '"' {
      if s[0] != '\\' { ProblemsLieInside(s[1..]); }
    }
  }

  lemma OtherLetter(letter: char, rest: string)
    requires letter != 'u' && forall code :: !ShortForm(letter, code)
    ensures Unescape(['\\', letter] + rest) == Bad(UnknownEscape, 2)
  {
    var s := ['\\', letter] + rest;
    assert s[0] == '\\' && s[1] == letter;
    forall i | 0 <= i < 8 ensures letter != SHORT[i].0 {
      assert SHORT[i] in SHORT;
      if letter == SHORT[i].0 { assert ShortForm(letter, SHORT[i].1); }
    }
    assert letter != SHORT[0].0 && letter != SHORT[1].0 && letter != SHORT[2].0 && letter != SHORT[3].0;
    assert letter != SHORT[4].0 && letter != SHORT[5].0 && letter != SHORT[6].0 && letter != SHORT[7].0;
  }

  // -------------------------------------------------------------- problems

  predicate NotHex(c: char) { c !in LOWER && c !in UPPER }

  /** A lead surrogate that ends at a place. */
  ghost predicate LeadEndsAt(s: string, at: nat) { 6 <= at <= |s| && LeadUnit(s[at - 6..at]) }

  ghost predicate LeadUnit(e: string) { exists hi: nat :: CodeUnit(e, hi) && 0xD800 <= hi <= 0xDBFF }

  ghost predicate Known(letter: char) { exists code :: ShortForm(letter, code) }

  predicate EscapeAt(s: string, i: nat) { i + 1 < |s| && s[i] == '\\' && s[i + 1] == 'u' }

  /** What is wrong with a text just in front of a place. */
  ghost predicate ProblemAt(s: string, p: Problem, at: nat) {
    && 1 <= at <= |s|
    && match p
       case EmptyEscape => at == |s| && s[at - 1] == '\\'
       case UnknownEscape => at >= 2 && s[at - 2] == '\\' && s[at - 1] != 'u' && !Known(s[at - 1])
       case FourDigitsExpected => at >= 2 && EscapeAt(s, at - 2) && |s| - at < 4
       case HexDigitExpected =>
         NotHex(s[at - 1]) && exists j: nat :: EscapeAt(s, j) && j + 3 <= at <= j + 6 && forall i :: j + 2 <= i < at - 1 ==> !NotHex(s[i])
       case SixCharactersExpected => LeadEndsAt(s, at) && |s| - at < 6
       case SecondHalfExpected =>
         || (LeadEndsAt(s, at - 1) && s[at - 1] != '\\')
         || (at >= 2 && LeadEndsAt(s, at - 2) && s[at - 2] == '\\' && s[at - 1] != 'u')
  }

  lemma {:induction false} ProblemBehind(s: string, n: nat, p: Problem, at: nat)
    requires n <= |s| && ProblemAt(s[n..], p, at)
    ensures ProblemAt(s, p, n + at)
  {
    hide LeadUnit, NotHex, Known;
    var t := s[n..];
    if p == HexDigitExpected {
      var j: nat :| EscapeAt(t, j) && j + 3 <= at <= j + 6 && forall i :: j + 2 <= i < at - 1 ==> !NotHex(t[i]);
      assert EscapeAt(s, n + j);
      forall i | n + j + 2 <= i < n + at - 1 ensures !NotHex(s[i]) { assert s[i] == t[i - n]; }
    } else if p == SixCharactersExpected {
      LeadBehind(s, n, at);
    } else if p == SecondHalfExpected {
      if LeadEndsAt(t, at - 1) { LeadBehind(s, n, at - 1); }
      if at >= 2 && LeadEndsAt(t, at - 2) { LeadBehind(s, n, at - 2); }
    }
  }

  lemma {:induction false} LeadBehind(s: string, n: nat, at: nat)
    requires n <= |s| && LeadEndsAt(s[n..], at)
    ensures LeadEndsAt(s, n + at)
  {
    hide LeadUnit;
    assert s[n..][at - 6..at] == s[n + at - 6..n + at];
  }

  lemma HexIff(c: char)
    ensures IsHex(c) <==> !NotHex(c)
  {
    if IsHex(c) {
      assert c == if '0' <= c <= '9' || 'a' <= c <= 'f' then LOWER[HexValue(c)] else UPPER[HexValue(c)];
    }
  }

  /** A problem with four digits behind an escape at the start of a text. */
  lemma {:induction false} HexProblem(s: string, n: nat)
    requires EscapeAt(s, n) && Hex4(s[n + 2..]).NoCode?
    ensures ProblemAt(s, Hex4(s[n + 2..]).problem, n + 2 + Hex4(s[n + 2..]).at)
  {
    var h := s[n + 2..];
    BadHex(h);
    var c := Hex4(h);
    hide Hex4, IsHex, NotHex;
    assert EscapeAt(s, n);
    if c.problem == HexDigitExpected {
      HexIff(h[c.at - 1]);
      forall i | n + 2 <= i < n + 2 + c.at - 1 ensures !NotHex(s[i]) {
        assert s[i] == h[i - n - 2];
        HexIff(h[i - n - 2]);
      }
    }
  }

  lemma BadHex(h: string)
    requires Hex4(h).NoCode?
    ensures var c := Hex4(h);
            if |h| < 4 then c == NoCode(FourDigitsExpected, 0)
            else c.problem == HexDigitExpected && 1 <= c.at <= 4 && !IsHex(h[c.at - 1]) && forall i :: 0 <= i < c.at - 1 ==> IsHex(h[i])
  {
    hide IsHex, HexPrefix;
  }

  lemma {:induction false} CodeUnitIs(s: string, n: nat)
    requires EscapeAt(s, n) && Hex4(s[n + 2..]).Code?
    ensures n + 6 <= |s| && CodeUnit(s[n..n + 6], Hex4(s[n + 2..]).unicode)
  {
    var h, e := s[n + 2..], s[n..n + 6];
    HexPrefix4(h);
    var ds: seq<nat> := [HexValue(h[0]), HexValue(h[1]), HexValue(h[2]), HexValue(h[3])];
    FourPlaces(ds);
    forall i | 0 <= i < 4 ensures DigitIs(e[2..][i], ds[i]) { HexRead(h[i]); }
    assert Numeral(e[2..], ds, 16);
  }

  lemma HexRead(c: char)
    requires IsHex(c)
    ensures DigitIs(c, HexValue(c))
  {
  }

  lemma {:induction false} CodePointProblem(s: string)
    requires EscapeAt(s, 0) && CodePoint(s[2..]).NoCode?
    ensures ProblemAt(s, CodePoint(s[2..]).problem, 2 + CodePoint(s[2..]).at)
  {
    hide Hex4, CodeUnit, LeadUnit;
    var h := s[2..];
    if Hex4(h).NoCode? {
      HexProblem(s, 0);
    } else {
      LeadHere(s);
      if |h| - 4 >= 6 && h[4] == '\\' && h[5] == 'u' {
        assert h[6..] == s[8..] && EscapeAt(s, 6);
        HexProblem(s, 6);
      }
    }
  }

  lemma {:induction false} LeadHere(s: string)
    requires EscapeAt(s, 0) && Hex4(s[2..]).Code?
    ensures |s| >= 6 && (0xD800 <= Hex4(s[2..]).unicode <= 0xDBFF ==> LeadEndsAt(s, 6))
  {
    CodeUnitIs(s, 0);
    hide Hex4, CodeUnit;
    assert s[6 - 6..6] == s[0..0 + 6];
  }

  /** A text is refused for what is wrong just in front of the place it reports. */
  lemma {:induction false} ProblemsExplained(s: string)
    ensures var u := Unescape(s); u.Bad? ==> ProblemAt(s, u.problem, u.at)
    decreases |s|
  {
    if s != "" && s[0] != '"' {
      hide CodePoint, ProblemAt, CodePointToUTF8;
      if s[0] != '\\' {
        ProblemsExplained(s[1..]);
        if Unescape(s[1..]).Bad? { ProblemBehind(s, 1, Unescape(s[1..]).problem, Unescape(s[1..]).at); }
      } else if |s| == 1 {
        EndsInEscape(s);
      } else if s[1] == 'u' {
        var c := CodePoint(s[2..]);
        if c.NoCode? {
          CodePointProblem(s);
        } else {
          var n := 2 + c.length;
          ProblemsExplained(s[n..]);
          if Unescape(s[n..]).Bad? { ProblemBehind(s, n, Unescape(s[n..]).problem, Unescape(s[n..]).at); }
        }
      } else if SimpleEscape(s[1]) == "" {
        LetterRefused(s);
      } else {
        ProblemsExplained(s[2..]);
        if Unescape(s[2..]).Bad? { ProblemBehind(s, 2, Unescape(s[2..]).problem, Unescape(s[2..]).at); }
      }
    }
  }

  lemma EndsInEscape(s: string)
    requires |s| == 1 && s[0] == '\\'
    ensures ProblemAt(s, EmptyEscape, 1)
  {
  }

  lemma LetterRefused(s: string)
    requires |s| >= 2 && s[0] == '\\' && s[1] != 'u' && SimpleEscape(s[1]) == ""
    ensures ProblemAt(s, UnknownEscape, 2)
  {
  }

  // ------------------------------------------------------------- scanning

  /** The scan for the closing quote runs through any spellings. */
  lemma {:induction false} ScanSpellings(es: seq<string>, ts: seq<string>, rest: string)
    requires Spellings(es, ts)
    ensures StringRun(Flatten(es) + "\"" + rest) == Run(|Flatten(es)| + 1, true)
  {
    if es == [] {
      assert Flatten(es) + "\"" + rest == "\"" + rest;
    } else {
      var tail := Flatten(es[1..]) + "\"" + rest;
      FirstSpelling(es, ts);
      hide Spelling, Spellings, StringRun;
      ScanSpellings(es[1..], ts[1..], rest);
      ScanSpelling(es[0], ts[0], tail);
      assert Flatten(es) + "\"" + rest == es[0] + tail;
    }
  }

  lemma ScanSpelling(e: string, bytes: string, r: string)
    requires Spelling(e, bytes)
    ensures StringRun(e + r) == Run(|e| + StringRun(r).length, StringRun(r).ok)
  {
    var s := e + r;
    if |e| == 1 {
      assert s[0] == e[0] && s[1..] == r;
    } else if |e| == 2 {
      assert s[0] == '\\' && s[2..] == r;
    } else {
      var cp: nat :| Units(e, cp) && Encodes(bytes, cp);
      if |e| == 6 {
        ScanCodeUnit(e, cp, r);
      } else {
        var hi: nat, lo: nat :| CodeUnit(e[..6], hi) && CodeUnit(e[6..], lo);
        assert s == e[..6] + (e[6..] + r);
        ScanCodeUnit(e[6..], lo, r);
        ScanCodeUnit(e[..6], hi, e[6..] + r);
      }
    }
  }

  lemma ScanCodeUnit(e: string, n: nat, r: string)
    requires CodeUnit(e, n)
    ensures StringRun(e + r) == Run(6 + StringRun(r).length, StringRun(r).ok)
  {
    var ds: seq<nat> :| Numeral(e[2..], ds, 16) && PlaceValue(ds, 16) == n;
    var s := e + r;
    var t := s[2..];
    forall i | 0 <= i < 4 ensures t[i] != '\\' && t[i] != '"' {
      assert t[i] == e[2..][i];
      assert DigitIs(e[2..][i], ds[i]);
    }
    ScanPlain(t, 4);
    assert t[4..] == r;
    assert s[0] == '\\';
  }

  // -------------------------------------------------------------- writing

  /** The escapes of a string, one for each character. */
  function Pieces(s: string): (es: seq<string>)
    ensures |es| == |s|
  {
    if s == "" then [] else [Escape(s[0])] + Pieces(s[1..])
  }

  function Singles(s: string): (ts: seq<string>)
    ensures |ts| == |s|
  {
    if s == "" then [] else [[s[0]]] + Singles(s[1..])
  }

  /** What the writer puts between the quotes spells the string in the sense of the RFC,
      byte by byte, and no control character is left bare. */
  lemma {:induction false} EscapesAreSpellings(s: string)
    ensures Spellings(Pieces(s), Singles(s)) && Flatten(Pieces(s)) == EscapeAll(s) && Flatten(Singles(s)) == s
    ensures forall i :: 0 <= i < |EscapeAll(s)| ==> EscapeAll(s)[i] as int >= 0x20
  {
    if s != "" {
      EscapeIsSpelling(s[0]);
      NothingBare(s[0]);
      EscapesAreSpellings(s[1..]);
      assert s == [s[0]] + s[1..];
    }
  }

  lemma EscapeIsSpelling(c: char)
    ensures Spelling(Escape(c), [c])
  {
    if |Escape(c)| == 2 {
      assert ShortForm(Escape(c)[1], c as nat);
    } else if |Escape(c)| == 6 {
      ControlIsSpelling(c);
    }
  }

  lemma NothingBare(c: char)
    ensures forall i :: 0 <= i < |Escape(c)| ==> Escape(c)[i] as int >= 0x20
  {
  }

  lemma ControlIsSpelling(c: char)
    requires |Escape(c)| == 6
    ensures CodeUnit(Escape(c), c as nat) && Spelling(Escape(c), [c])
  {
    var e := Escape(c);
    var ds: seq<nat> := [0, 0, c as nat / 16, c as nat % 16];
    FourPlaces(ds);
    assert e[2..] == ['0', '0', HexDigit(ds[2]), HexDigit(ds[3])];
    assert e[0] == '\\' && e[1] == 'u' && c as nat < 0x20;
    hide Escape;
    assert Numeral(e[2..], ds, 16);
    assert CodeUnit(e, c as nat);
    assert Encodes([c], c as nat) && Units(e, c as nat);
  }

  /** Which spelling the writer chooses: a character from the space on stands for itself
      unless it is a quote or a backslash, the short form (but for the slash) comes before
      the numeric one, and that has upper-case digits. */
  lemma {:induction false} EscapeChoice(c: char)
    ensures 0x20 <= c as nat != 0x22 && c as nat != 0x5C ==> Escape(c) == [c]
    ensures forall i :: 0 <= i < 8 && i != 2 && c as nat == SHORT[i].1 ==> Escape(c) == ['\\', SHORT[i].0]
    ensures c as nat < 0x20 && c as nat !in {8, 9, 0xA, 0xC, 0xD} ==>
              CodeUnit(Escape(c), c as nat) && Escape(c)[4] in UPPER && Escape(c)[5] in UPPER
  {
    forall i | 0 <= i < 8 && i != 2 && c as nat == SHORT[i].1 ensures Escape(c) == ['\\', SHORT[i].0] { ShortRow(i); }
    if c as nat < 0x20 && c as nat !in {8, 9, 0xA, 0xC, 0xD} {
      ControlIsSpelling(c);
      UpperCase(c);
    }
  }

  lemma ShortRow(i: nat)
    requires i < 8 && i != 2
    ensures Escape(SHORT[i].1 as char) == ['\\', SHORT[i].0]
  {
  }

  lemma UpperCase(c: char)
    requires |Escape(c)| == 6
    ensures Escape(c)[4] in UPPER && Escape(c)[5] in UPPER
  {
    assert Escape(c)[4] == UPPER[c as nat / 16] && Escape(c)[5] == UPPER[c as nat % 16];
  }
}
