/** Reading what the writers print, text by text: the values with their offsets. */
module JsonPrinted {
  import opened JsonGrammar
  import opened JsonLayout
  import opened JsonParse
  import opened JsonRoundTrip
  import opened JsonValue
  import opened JsonWriter
  import opened Options
  import Writer = JsonStyledWriter

  /** The levels of a container, from those of its children in the order they are printed. */
  lemma {:induction false} SameHeight(v: Value, parts: seq<Part>)
    requires v.payload.Container() && WellFormed(v) && |parts| == Size(v)
    requires forall k :: 0 <= k < |parts| ==> Height(parts[k].value) == Levels(SlotAt(v, k).value)
    ensures MaxHeight(parts) == MaxLevels(v.payload.items)
  {
    hide Height, Levels, SlotAt, WellFormed;
    var items := v.payload.items;
    if items == [] {
      assert parts == [];
      assert MaxLevels(items) == 0;
    } else {
      var p := DeepestItem(items);
      var j := ItemSlot(v, p);
      MaxHeightBounds(parts, j);
      SizeFilled(v);
      var k := Tallest(parts);
      ChildLevels(v, k);
    }
  }

  lemma SizeFilled(v: Value)
    requires v.payload.Container() && WellFormed(v) && v.payload.items != []
    ensures Size(v) > 0
  {
    assert v.payload.items[|v.payload.items| - 1] in v.payload.items;
  }

  lemma ChildLevels(v: Value, i: nat)
    requires v.payload.Container() && i < Size(v)
    ensures Levels(SlotAt(v, i).value) <= MaxLevels(v.payload.items)
  {
    assert Levels(SlotAt(v, i).value) < Levels(v);
    hide SlotAt;
  }

  lemma {:induction false} CompactHeight(o: FastOptions, v: Value)
    requires WellFormed(v)
    ensures Height(Compact(o, v)) == Levels(v)
    decreases Levels(v)
  {
    hide WellFormed, Scalar, SlotAt, Titled;
    if v.payload.Container() {
      CompactParts(o, v);
      var parts := Compact(o, v).parts;
      forall k | 0 <= k < |parts| ensures Height(parts[k].value) == Levels(SlotAt(v, k).value) {
        ChildWellFormed(v, k);
        CompactHeight(o, SlotAt(v, k).value);
      }
      SameHeight(v, parts);
      hide Compact;
    } else {
      ScalarHeight(v, o.dropNulls, o.showReal);
    }
  }

  lemma ScalarHeight(v: Value, dropNulls: bool, showReal: real -> string)
    requires !v.payload.Container()
    ensures Height(Scalar(v, dropNulls, showReal)) == 1 == Levels(v)
  {
  }

  /** What FastWriter printed is read, exactly up to 1000 levels, as what its text means. */
  lemma FastPrinted(f: FastOptions, features: Features, toDouble: string -> Option<real>, root: Value, v: Value)
    requires WellFormed(v) && RealFree(v) && !f.dropNulls && (features.strictRoot ==> v.payload.Container())
    ensures var src := Source(FastDocument(f, v), features, toDouble);
            var o := Parse(src, root);
            if Levels(v) > 1000 then o == Thrown(StackLimitExceeded)
            else o.Done? && o.ok && o.errors == [] && Denotes(src, Compact(f, v), 0, o.value)
  {
    hide *;
    var src := Source(FastDocument(f, v), features, toDouble);
    FastDocumentIsCompact(f, v);
    CompactIsJson(f, src, v);
    CompactHeight(f, v);
    CompactKind(f, v);
    LineFeed();
    assert "" + Spelled(Compact(f, v)) == Spelled(Compact(f, v));
    ParsesText(src, root, "", Compact(f, v), if f.omitLineFeed then "" else "\n");
  }

  lemma LineFeed()
    ensures Blanks("\n") && Blanks("")
  {
  }

  lemma CompactKind(f: FastOptions, v: Value)
    ensures v.payload.Container() <==> Compact(f, v).ArrayOf? || Compact(f, v).ObjectOf?
  {
    hide SlotAt, Titled;
  }

  lemma {:induction false} PieceHeight(o: Writer.StyleOptions, v: Value)
    requires WellFormed(v) && InOnePiece(v)
    ensures Height(Piece(o, v)) == Levels(v)
  {
    if v.payload.Container() {
      SameHeight(v, []);
    } else {
      ScalarHeight(v, false, o.showReal);
    }
    hide Scalar, WellFormed;
  }

  lemma {:induction false} PrettyHeight(o: Writer.StyleOptions, v: Value, level: nat)
    requires WellFormed(v)
    ensures Height(Pretty(o, v, level)) == Levels(v)
    decreases Levels(v)
  {
    hide WellFormed, SlotAt, Titled, Piece, FitsMargin, OneLine, MaxHeight, MaxLevels;
    if InOnePiece(v) {
      PieceHeight(o, v);
    } else if v.payload.Array? && FitsMargin(o, v) {
      FitsInPieces(o, v);
      OneLineHeight(o, v);
    } else {
      BlockParts(o, level, v, 0);
      var parts := Pretty(o, v, level).parts;
      forall k | 0 <= k < |parts| ensures Height(parts[k].value) == Levels(SlotAt(v, k).value) {
        BlockParts(o, level, v, k);
        ChildWellFormed(v, k);
        PrettyHeight(o, SlotAt(v, k).value, level + 1);
      }
      SameHeight(v, parts);
      hide Pretty;
    }
  }

  lemma {:induction false} OneLineHeight(o: Writer.StyleOptions, v: Value)
    requires WellFormed(v) && v.payload.Array? && AllInOnePiece(v)
    ensures Height(OneLine(o, v)) == Levels(v)
  {
    hide WellFormed, SlotAt, Piece;
    var parts := OneLine(o, v).parts;
    forall k | 0 <= k < |parts| ensures Height(parts[k].value) == Levels(SlotAt(v, k).value) {
      ChildWellFormed(v, k);
      PieceHeight(o, SlotAt(v, k).value);
    }
    SameHeight(v, parts);
  }

  /** And so is what StyledWriter printed. */
  lemma StyledPrinted(s: Writer.StyleOptions, features: Features, toDouble: string -> Option<real>, root: Value, v: Value)
    requires WellFormed(v) && RealFree(v) && (features.strictRoot ==> v.payload.Container())
    ensures var src := Source(Writer.StyledDocument(s, v), features, toDouble);
            var o := Parse(src, root);
            if Levels(v) > 1000 then o == Thrown(StackLimitExceeded)
            else o.Done? && o.ok && o.errors == [] && Denotes(src, Pretty(s, v, 0), 0, o.value)
  {
    hide *;
    var src := Source(Writer.StyledDocument(s, v), features, toDouble);
    NoReals(s, v);
    StyledDocumentIsPretty(s, v);
    PrettyIsJson(s, src, v, 0);
    PrettyHeight(s, v, 0);
    PrettyKind(s, v);
    LineFeed();
    assert "" + Spelled(Pretty(s, v, 0)) == Spelled(Pretty(s, v, 0));
    ParsesText(src, root, "", Pretty(s, v, 0), "\n");
  }

  lemma PrettyKind(s: Writer.StyleOptions, v: Value)
    ensures v.payload.Container() <==> Pretty(s, v, 0).ArrayOf? || Pretty(s, v, 0).ObjectOf?
  {
    hide SlotAt, Titled, FitsMargin;
  }

  lemma {:induction false} NoReals(s: Writer.StyleOptions, v: Value)
    requires RealFree(v)
    ensures PrintsReals(s, v)
    decreases Levels(v)
  {
    hide SlotAt;
    if v.payload.Container() {
      forall k | 0 <= k < Size(v) ensures PrintsReals(s, SlotAt(v, k).value) {
        SlotRealFree(v, 0, k);
        NoReals(s, SlotAt(v, k).value);
      }
    }
  }
}
