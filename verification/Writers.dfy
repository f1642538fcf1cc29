/**
 The two printers: FastWriter, which appends to a string while it walks the value,
 and BuiltStyledStreamWriter, which keeps an indent string, a list of already
 printed child values and two flags. Values carry no comments.
 */
module Writers {
  import opened Bytes
  import opened Values
  import opened ValueArray
  import opened Decimal
  import opened Quoting
  import opened JsonText

  // ---- Children ----

  lemma {:induction false} EntryWellFormed(es: seq<Member>, i: nat)
    requires WellFormedEntries(es) && i < |es|
    ensures WellFormed(es[i].value)
    decreases i
  {
    assert WellFormedMember(es[0]);
    if i > 0 {
      EntryWellFormed(es[1..], i - 1);
    }
  }

  /** A child is well-formed and less deeply nested than its container. */
  lemma ChildOf(v: Value, k: Key)
    requires WellFormed(v) && (v.Array? || v.Object?)
    ensures WellFormed(Child(v, k)) && Depth(Child(v, k)) < Depth(v)
  {
    if Has(v.entries, k) {
      EntryWellFormed(v.entries, LowerBound(v.entries, k));
      EntryDepth(v.entries, LowerBound(v.entries, k));
    }
  }

  /** `value[index]` is what the filled array holds at that index. */
  lemma ElementOf(v: Value, i: nat)
    requires WellFormed(v) && v.Array? && i < Size(v.entries)
    ensures i < |Fill(v).entries| && Fill(v).entries[i] == Member(Index(i), Fill(Child(v, Index(i))))
  {
    FillSlotsAt(v.entries, 0, Size(v.entries), i);
  }

  /** `value[name]` is the value of the entry whose name was listed. */
  lemma MemberOf(v: Value, i: nat)
    requires WellFormed(v) && v.Object? && i < |v.entries|
    ensures v.entries[i].key.Name?
    ensures Fill(v).entries[i] == Member(v.entries[i].key, Fill(Child(v, v.entries[i].key)))
  {
    HasIff(v.entries, v.entries[i].key);
    FillEntriesAt(v.entries, i);
  }

  /** The text of a scalar, as the writers' common helper functions print it. */
  method ScalarToString(tc: TextConfig, v: Value) returns (text: bytes)
    requires WellFormed(v) && !v.Array? && !v.Object?
    ensures text == ScalarText(tc, v)
  {
    match v {
      case Null => text := tc.nullText;
      case Int(i) => text := ValueToStringInt(i);
      case UInt(u) => text := ValueToStringUInt(u);
      case Real(bits) => text := tc.realText(bits);
      case Str(s) => text := ValueToQuotedStringN(s, tc.charIsSigned);
      case Bool(b) => text := if b then TRUE_TEXT else FALSE_TEXT;
    }
  }

  /** Moving the first part of what is still to come into what has been written. */
  lemma Regrouped(sofar: bytes, first: bytes, comma: bytes, rest: bytes)
    ensures sofar + first + comma + rest == sofar + (first + comma + rest)
  {
  }

  // ---- FastWriter ----

  class FastWriter {
    const tc: TextConfig
    const yamlCompatibilityEnabled: bool
    const omitEndingLineFeed: bool
    var document: bytes

    constructor (tc: TextConfig, yamlCompatibilityEnabled: bool, omitEndingLineFeed: bool)
      ensures this.tc == tc && this.yamlCompatibilityEnabled == yamlCompatibilityEnabled
      ensures this.omitEndingLineFeed == omitEndingLineFeed
    {
      this.tc, this.yamlCompatibilityEnabled, this.omitEndingLineFeed := tc, yamlCompatibilityEnabled, omitEndingLineFeed;
      document := [];
    }

    function Colon(): bytes {
      if yamlCompatibilityEnabled then [COLON, SPACE] else [COLON]
    }

    method Write(root: Value) returns (text: bytes)
      requires WellFormed(root)
      modifies this
      ensures text == document == FastText(tc, Colon(), Fill(root)) + (if omitEndingLineFeed then [] else [LF])
    {
      document := [];
      WriteValue(root);
      if !omitEndingLineFeed {
        document := document + [LF];
      }
      text := document;
    }

    method WriteValue(value: Value)
      requires WellFormed(value)
      modifies this
      ensures document == old(document) + FastText(tc, Colon(), Fill(value))
      decreases Depth(value), 2
    {
      if value.Array? {
        WriteArray(value);
      } else if value.Object? {
        WriteObject(value);
      } else {
        var text := ScalarToString(tc, value);
        document := document + text;
      }
    }

    method WriteArray(value: Value)
      requires WellFormed(value) && value.Array?
      modifies this
      ensures document == old(document) + FastText(tc, Colon(), Fill(value))
      decreases Depth(value), 0
    {
      hide FastElements, FastValue, FastText, Fill, CommaBefore;
      ArrayText(value);
      ghost var start, es := document, Fill(value).entries;
      document := document + [LBRACKET];
      var size := Size(value.entries);
      var index := 0;
      assert es[0..] == es;
      ghost var goal := start + [LBRACKET] + FastElements(tc, Colon(), es);
      NoComma(document, es, 0, FastElements(tc, Colon(), es));
      while index < size
        invariant index <= size == |es|
        invariant document + CommaBefore(es, index) + FastElements(tc, Colon(), es[index..]) == goal
      {
        ElementTurn(document, es, index, goal);
        if index > 0 {
          document := document + [COMMA];
        }
        ChildOf(value, Index(index));
        ElementOf(value, index);
        WriteValue(Child(value, Index(index)));
        index := index + 1;
      }
      assert es[index..] == [];
      NoComma(document, es, index, []);
      document := document + [RBRACKET];
      Regrouped(start, [LBRACKET], FastElements(tc, Colon(), es), [RBRACKET]);
    }

    /** Nothing is owed before the first element and behind the last. */
    lemma NoComma(doc: bytes, es: seq<Member>, index: nat, rest: bytes)
      requires index == 0 || index == |es|
      ensures doc + CommaBefore(es, index) + rest == doc + rest
    {
      assert doc + [] == doc;
    }

    /** One element and the comma before it bring the text nearer to the goal. */
    lemma ElementTurn(doc: bytes, es: seq<Member>, index: nat, goal: bytes)
      requires index < |es| && doc + CommaBefore(es, index) + FastElements(tc, Colon(), es[index..]) == goal
      ensures var lead := if index > 0 then doc + [COMMA] else doc;
              lead + FastText(tc, Colon(), es[index].value) + CommaBefore(es, index + 1) + FastElements(tc, Colon(), es[index + 1..]) == goal
    {
      hide FastElements, FastValue, FastText;
      FastElementsFrom(es, index);
      assert doc + [] == doc;
      Regrouped(doc + CommaBefore(es, index), FastText(tc, Colon(), es[index].value), CommaBefore(es, index + 1),
                FastElements(tc, Colon(), es[index + 1..]));
    }

    lemma ArrayText(v: Value)
      requires v.Array?
      ensures var f := Fill(v);
              && f.Array? && |f.entries| == Size(v.entries)
              && FastText(tc, Colon(), f) == [LBRACKET] + FastElements(tc, Colon(), f.entries) + [RBRACKET]
              && FastElements(tc, Colon(), []) == []
    {
    }

    lemma ObjectText(v: Value)
      requires v.Object?
      ensures var f := Fill(v);
              && f.Object? && |f.entries| == |v.entries|
              && FastText(tc, Colon(), f) == [LBRACE] + FastMembers(tc, Colon(), f.entries) + [RBRACE]
              && FastMembers(tc, Colon(), []) == []
    {
    }

    /** The comma still owed before the element at index. */
    ghost function CommaBefore(es: seq<Member>, index: nat): bytes {
      if 0 < index < |es| then [COMMA] else []
    }

    lemma FastElementsFrom(es: seq<Member>, index: nat)
      requires index < |es|
      ensures FastElements(tc, Colon(), es[index..])
           == FastValue(tc, Colon(), es[index]) + CommaBefore(es, index + 1) + FastElements(tc, Colon(), es[index + 1..])
      ensures FastValue(tc, Colon(), es[index]) == FastText(tc, Colon(), es[index].value)
    {
      assert es[index..][1..] == es[index + 1..];
    }

    method WriteObject(value: Value)
      requires WellFormed(value) && value.Object?
      modifies this
      ensures document == old(document) + FastText(tc, Colon(), Fill(value))
      decreases Depth(value), 1
    {
      hide FastMembers, FastMember, Fill;
      ObjectText(value);
      ghost var start, es := document, Fill(value).entries;
      document := document + [LBRACE];
      var it := 0;
      assert es[0..] == es;
      while it != |value.entries|
        invariant it <= |value.entries| == |es|
        invariant document + CommaBefore(es, it) + FastMembers(tc, Colon(), es[it..])
               == start + [LBRACE] + FastMembers(tc, Colon(), es)
        decreases |value.entries| - it
      {
        if it != 0 {
          document := document + [COMMA];
        }
        FastMembersFrom(es, it);
        Regrouped(document, FastMember(es[it]), CommaBefore(es, it + 1), FastMembers(tc, Colon(), es[it + 1..]));
        WriteMember(value, it);
        it := it + 1;
      }
      assert es[it..] == [];
      document := document + [RBRACE];
      Regrouped(start, [LBRACE], FastMembers(tc, Colon(), es), [RBRACE]);
    }

    /** One name, its colon and its value. */
    method WriteMember(value: Value, it: nat)
      requires WellFormed(value) && value.Object? && it < |value.entries|
      modifies this
      ensures document == old(document) + FastMember(Fill(value).entries[it])
      decreases Depth(value), 0
    {
      hide Quoted, FastText;
      MemberOf(value, it);
      var name := value.entries[it].key.name;
      var quoted := ValueToQuotedStringN(name, tc.charIsSigned);
      document := document + quoted;
      document := document + Colon();
      ChildOf(value, Name(name));
      WriteValue(Child(value, Name(name)));
      assert document == old(document) + (quoted + Colon() + FastText(tc, Colon(), Fill(value).entries[it].value));
      FastMemberText(Fill(value).entries[it]);
    }

    ghost function FastMember(m: Member): bytes {
      KeyText(tc, m.key) + Colon() + FastValue(tc, Colon(), m)
    }

    lemma FastMemberText(m: Member)
      ensures FastMember(m) == KeyText(tc, m.key) + Colon() + FastText(tc, Colon(), m.value)
    {
    }

    lemma FastMembersFrom(es: seq<Member>, i: nat)
      requires i < |es|
      ensures FastMembers(tc, Colon(), es[i..]) == FastMember(es[i]) + CommaBefore(es, i + 1) + FastMembers(tc, Colon(), es[i + 1..])
    {
      assert es[i..][1..] == es[i + 1..];
    }
  }

  // ---- BuiltStyledStreamWriter ----

  lemma FilledFlat(v: Value)
    ensures v.Array? ==> (Flat(Fill(v)) <==> Size(v.entries) == 0)
    ensures v.Object? ==> (Flat(Fill(v)) <==> v.entries == [])
    ensures Fill(v).Array? <==> v.Array?
    ensures Fill(v).Object? <==> v.Object?
    ensures v.Array? ==> |Fill(v).entries| == Size(v.entries)
    ensures v.Object? ==> |Fill(v).entries| == |v.entries|
    ensures !v.Array? && !v.Object? ==> Fill(v) == v
  {
  }

  lemma FlatTexts(tc: TextConfig, v: Value)
    requires Flat(v)
    ensures v.Array? ==> FlatText(tc, v) == [LBRACKET, RBRACKET]
    ensures v.Object? ==> FlatText(tc, v) == [LBRACE, RBRACE]
    ensures !v.Array? && !v.Object? ==> FlatText(tc, v) == ScalarText(tc, v)
  {
    FlatIsFast(tc, [], v);
  }

  /** The texts isMultilineArray collects, one for each element. */
  ghost function ChildTexts(tc: TextConfig, es: seq<Member>): seq<bytes>
    requires AllFlat(es)
  {
    seq(|es|, i requires 0 <= i < |es| => FlatText(tc, es[i].value))
  }

  lemma TextLengthStep(tc: TextConfig, es: seq<Member>, i: nat)
    requires AllFlat(es) && i < |es|
    ensures AllFlat(es[..i]) && AllFlat(es[..i + 1])
    ensures TextLength(tc, es[..i + 1]) == TextLength(tc, es[..i]) + |FlatText(tc, es[i].value)|
  {
    assert es[..i + 1][..i] == es[..i];
  }

  // The flattened text of each part of the styled printer.

  lemma FlattenFour(a: seq<Piece>, b: seq<Piece>, c: seq<Piece>, d: seq<Piece>)
    ensures Flatten(a + b + c + d) == Flatten(a) + Flatten(b) + Flatten(c) + Flatten(d)
  {
    FlattenThree(a, b, c);
    PiecesConcat(a + b + c, d);
  }

  lemma FlattenBlock(a: seq<Piece>, open: bytes, b: seq<Piece>, c: seq<Piece>, close: bytes)
    ensures Flatten(a + [Lexeme(open)] + b + c + [Lexeme(close)]) == Flatten(a) + open + Flatten(b) + Flatten(c) + close
  {
    FlattenFour(a, [Lexeme(open)], b, c);
    PiecesConcat(a + [Lexeme(open)] + b + c, [Lexeme(close)]);
    FlattenOne(open);
    FlattenOne(close);
  }

  ghost function Comma(n: nat): bytes {
    if n > 1 then [COMMA] else []
  }

  lemma ElementsText(tc: TextConfig, ly: Layout, es: seq<Member>, indent: bytes)
    requires es != []
    ensures Flatten(StyledElements(tc, ly, es, indent))
         == Flatten(ly.NewLine(indent, false)) + Flatten(Styled(tc, ly, es[0].value, indent, true))
            + Comma(|es|) + Flatten(StyledElements(tc, ly, es[1..], indent))
  {
    var nl, value, rest :=
      ly.NewLine(indent, false), StyledValue(tc, ly, es[0], indent, true), StyledElements(tc, ly, es[1..], indent);
    assert value == Styled(tc, ly, es[0].value, indent, true);
    PiecesConcat(nl, value);
    if |es| > 1 {
      SeparatedFlatten(nl + value, rest);
    }
  }

  lemma MembersText(tc: TextConfig, ly: Layout, es: seq<Member>, indent: bytes)
    requires es != []
    ensures Flatten(StyledMembers(tc, ly, es, indent))
         == Flatten(ly.NewLine(indent, false)) + KeyText(tc, es[0].key) + ly.ColonSymbol()
            + Flatten(Styled(tc, ly, es[0].value, indent, false))
            + Comma(|es|) + Flatten(StyledMembers(tc, ly, es[1..], indent))
  {
    var nl, key, value, rest :=
      ly.NewLine(indent, false), [Lexeme(KeyText(tc, es[0].key))], StyledValue(tc, ly, es[0], indent, false),
      StyledMembers(tc, ly, es[1..], indent);
    hide Flatten, KeyText;
    assert value == Styled(tc, ly, es[0].value, indent, false);
    FlattenFour(nl, key, ly.ColonPieces(), value);
    FlattenOne(KeyText(tc, es[0].key));
    FlattenColon(ly);
    var first := nl + key + ly.ColonPieces() + value;
    if |es| > 1 {
      SeparatedFlatten(first, rest);
      assert StyledMembers(tc, ly, es, indent) == first + ([Lexeme([COMMA])] + rest);
    } else {
      NoMembers(tc, ly, indent);
      assert StyledMembers(tc, ly, es, indent) == first;
    }
  }

  lemma LineText(tc: TextConfig, ly: Layout, es: seq<Member>)
    requires es != [] && AllFlat(es)
    ensures Flatten(LineElements(tc, ly, es))
         == FlatText(tc, es[0].value)
            + (if |es| > 1 then [COMMA] + Flatten(ly.Padding()) else []) + Flatten(LineElements(tc, ly, es[1..]))
  {
    if |es| > 1 {
      var rest := LineElements(tc, ly, es[1..]);
      PiecesConcat(FlatPieces(tc, es[0].value), [Lexeme([COMMA])] + ly.Padding() + rest);
      FlattenThree([Lexeme([COMMA])], ly.Padding(), rest);
      FlattenOne([COMMA]);
    }
  }

  lemma ChildCount(tc: TextConfig, es: seq<Member>)
    requires AllFlat(es)
    ensures |ChildTexts(tc, es)| == |es|
  {
  }

  lemma LineStep(tc: TextConfig, ly: Layout, es: seq<Member>, i: nat)
    requires i < |es| && AllFlat(es)
    ensures Flatten(LineElements(tc, ly, es[i..]))
         == ChildTexts(tc, es)[i]
            + (if i + 1 < |es| then [COMMA] + Flatten(ly.Padding()) else []) + Flatten(LineElements(tc, ly, es[i + 1..]))
  {
    hide Flatten, LineElements, FlatText;
    assert es[i..][1..] == es[i + 1..] && es[i..][0] == es[i];
    LineText(tc, ly, es[i..]);
  }

  lemma PaddingText(ly: Layout, indent: bytes)
    ensures Flatten(ly.Padding()) == if ly.indentation == [] then [] else [SPACE]
    ensures Flatten(ly.NewLine(indent, false)) == if ly.indentation == [] then [] else [LF] + indent
    ensures Flatten(ly.NewLine(indent, true)) == []
  {
    FlattenOne([SPACE]);
    FlattenOne([LF] + indent);
  }

  class BuiltStyledStreamWriter {
    const tc: TextConfig
    const ly: Layout
    var childValues: seq<bytes>
    var indentString: bytes
    var addChildValues: bool
    var indented: bool
    var sout: bytes

    constructor (tc: TextConfig, ly: Layout)
      ensures this.tc == tc && this.ly == ly && sout == [] && Valid()
    {
      this.tc, this.ly := tc, ly;
      childValues, indentString, addChildValues, indented, sout := [], [], false, false, [];
    }

    /** With commentStyle "All" no child values are ever collected. */
    ghost predicate Valid()
      reads this
    {
      ly.allComments ==> childValues == [] && !addChildValues
    }

    method PushValue(value: bytes)
      modifies this`childValues, this`sout
      ensures addChildValues ==> childValues == old(childValues) + [value] && sout == old(sout)
      ensures !addChildValues ==> childValues == old(childValues) && sout == old(sout) + value
    {
      if addChildValues {
        childValues := childValues + [value];
      } else {
        sout := sout + value;
      }
    }

    method WriteIndent()
      modifies this`sout
      ensures sout == old(sout) + Flatten(ly.NewLine(indentString, false))
    {
      PaddingText(ly, indentString);
      if ly.indentation != [] {
        sout := sout + ([LF] + indentString);
      }
    }

    method WriteWithIndent(value: bytes)
      modifies this`sout, this`indented
      ensures sout == old(sout) + Flatten(ly.NewLine(indentString, old(indented))) + value
      ensures !indented
    {
      PaddingText(ly, indentString);
      if !indented {
        WriteIndent();
      }
      sout := sout + value;
      indented := false;
    }

    method Indent()
      modifies this`indentString
      ensures indentString == old(indentString) + ly.indentation
    {
      indentString := indentString + ly.indentation;
    }

    /** Undoes Indent. The assertion that the indent is at least one indentation long is the precondition. */
    method Unindent()
      requires |indentString| >= |ly.indentation|
      modifies this`indentString
      ensures forall outer: bytes :: old(indentString) == outer + ly.indentation ==> indentString == outer
      ensures indentString <= old(indentString) && |indentString| == |old(indentString)| - |ly.indentation|
    {
      indentString := indentString[..|indentString| - |ly.indentation|];
    }

    /** BuiltStyledStreamWriter::write of a value without comments; endingLineFeedSymbol is empty. */
    method Write(root: Value)
      requires WellFormed(root) && Valid()
      modifies this
      ensures Valid()
      ensures sout == old(sout) + Flatten(Styled(tc, ly, Fill(root), [], true))
    {
      addChildValues := false;
      indented := true;
      indentString := [];
      // writeCommentBeforeValue has no comment to write, so the cursor is still in place
      WriteValue(root);
    }

    /** The effect of writing a value: its pieces go to the stream, or its text to the list of child values. */
    twostate predicate Wrote(v: Value)
      reads this
    {
      && Valid() && indentString == old(indentString) && addChildValues == old(addChildValues)
      && (old(addChildValues) ==>
            Flat(Fill(v)) && sout == old(sout) && indented == old(indented)
            && childValues == old(childValues) + [FlatText(tc, Fill(v))])
      && (!old(addChildValues) ==>
            && sout == old(sout) + Flatten(Styled(tc, ly, Fill(v), indentString, old(indented)))
            && (!old(indented) ==> !indented))
    }

    method WriteValue(value: Value)
      requires WellFormed(value) && Valid()
      requires addChildValues ==> Flat(Fill(value))
      modifies this
      ensures Wrote(value)
      decreases Depth(value), 4
    {
      hide Styled, ScalarText, Fill;
      FilledFlat(value);
      if Flat(Fill(value)) {
        FlatTexts(tc, Fill(value));
        StyledFlat(tc, ly, Fill(value), indentString, indented);
      }
      if value.Array? {
        if Size(value.entries) == 0 {
          PushValue([LBRACKET, RBRACKET]);
        } else {
          WriteArrayValue(value);
        }
      } else if value.Object? {
        if value.entries == [] {
          PushValue([LBRACE, RBRACE]);
        } else {
          WriteObjectValue(value);
        }
      } else {
        var text := ScalarToString(tc, value);
        PushValue(text);
      }
    }

    /** The objectValue case of writeValue, for an object with members. */
    method WriteObjectValue(value: Value)
      requires WellFormed(value) && value.Object? && value.entries != [] && Valid() && !addChildValues
      modifies this
      ensures Wrote(value)
      decreases Depth(value), 2
    {
      hide StyledMembers, Flatten, Fill, KeyText, Size, WellFormed, AllFlat;
      FilledFlat(value);
      ghost var es, outer, atStart := Fill(value).entries, indentString, indented;
      WriteWithIndent([LBRACE]);
      Indent();
      ghost var inner := indentString;
      WriteMembers(value);
      Unindent();
      assert indentString == outer;
      WriteWithIndent([RBRACE]);
      FlattenBlock(ly.NewLine(outer, atStart), [LBRACE], StyledMembers(tc, ly, es, inner), ly.NewLine(outer, false), [RBRACE]);
    }

    /** The loop over the members. */
    method WriteMembers(value: Value)
      requires WellFormed(value) && value.Object? && value.entries != []
      requires Valid() && !addChildValues && !indented
      modifies this
      ensures Valid() && !addChildValues && !indented && indentString == old(indentString)
      ensures sout == old(sout) + Flatten(StyledMembers(tc, ly, Fill(value).entries, indentString))
      decreases Depth(value), 1
    {
      hide StyledMembers, Flatten, Fill, KeyText, Size, WellFormed, AllFlat;
      FilledFlat(value);
      ghost var es, head := Fill(value).entries, sout;
      var it := 0;
      assert es[0..] == es;
      while true
        invariant it < |value.entries| == |es|
        invariant Valid() && !addChildValues && !indented && indentString == old(indentString)
        invariant sout + Flatten(StyledMembers(tc, ly, es[it..], indentString)) == head + Flatten(StyledMembers(tc, ly, es, indentString))
        decreases |value.entries| - it
      {
        MembersText(tc, ly, es[it..], indentString);
        assert es[it..][0] == es[it] && es[it..][1..] == es[it + 1..];
        WriteMember(value, it);
        it := it + 1;
        if it == |value.entries| {
          assert es[it..] == [];
          NoMembers(tc, ly, indentString);
          break;
        }
        sout := sout + [COMMA];
      }
    }

    /** One name, the colon symbol and the value. */
    method WriteMember(value: Value, it: nat)
      requires WellFormed(value) && value.Object? && it < |value.entries|
      requires Valid() && !addChildValues && !indented
      modifies this
      ensures Valid() && !addChildValues && !indented && indentString == old(indentString)
      ensures var m := Fill(value).entries[it];
              sout == old(sout) + (Flatten(ly.NewLine(indentString, false)) + KeyText(tc, m.key) + ly.ColonSymbol()
                                   + Flatten(Styled(tc, ly, m.value, indentString, false)))
      decreases Depth(value), 0
    {
      hide Flatten, Styled, Quoted;
      MemberOf(value, it);
      var name := value.entries[it].key.name;
      var quoted := ValueToQuotedStringN(name, tc.charIsSigned);
      WriteWithIndent(quoted);
      sout := sout + ly.ColonSymbol();
      ChildOf(value, Name(name));
      WriteValue(Child(value, Name(name)));
    }

    /** writeArrayValue, for an array with elements. */
    method WriteArrayValue(value: Value)
      requires WellFormed(value) && value.Array? && Size(value.entries) > 0 && Valid() && !addChildValues
      modifies this
      ensures Wrote(value)
      decreases Depth(value), 3
    {
      hide Flatten, Fill, TooLong, StyledElements, LineElements;
      FilledFlat(value);
      ghost var es := Fill(value).entries;
      var isMultiLine := ly.allComments;
      if !ly.allComments {
        isMultiLine := IsMultilineArray(value);
      }
      if isMultiLine {
        WriteLines(value);
      } else {
        assert |childValues| == Size(value.entries);
        WriteLine(Size(value.entries), es);
      }
    }

    /** writeArrayValue, one element to a line; collected child values are used if there are any. */
    method WriteLines(value: Value)
      requires WellFormed(value) && value.Array? && Size(value.entries) > 0 && Valid() && !addChildValues
      requires childValues != [] ==> AllFlat(Fill(value).entries) && childValues == ChildTexts(tc, Fill(value).entries)
      modifies this
      ensures Valid() && !addChildValues && !indented && indentString == old(indentString)
      ensures var inner := indentString + ly.indentation;
              sout == old(sout) + Flatten(
                ly.NewLine(indentString, old(indented)) + [Lexeme([LBRACKET])]
                + StyledElements(tc, ly, Fill(value).entries, inner)
                + ly.NewLine(indentString, false) + [Lexeme([RBRACKET])])
      decreases Depth(value), 2
    {
      hide StyledElements, Flatten, Fill, ChildTexts, AllFlat, Size, WellFormed;
      FilledFlat(value);
      ghost var es, outer, atStart := Fill(value).entries, indentString, indented;
      WriteWithIndent([LBRACKET]);
      Indent();
      ghost var inner := indentString;
      WriteElements(value);
      Unindent();
      assert indentString == outer;
      WriteWithIndent([RBRACKET]);
      FlattenBlock(ly.NewLine(outer, atStart), [LBRACKET], StyledElements(tc, ly, es, inner), ly.NewLine(outer, false), [RBRACKET]);
    }

    /** The loop over the elements. */
    method WriteElements(value: Value)
      requires WellFormed(value) && value.Array? && Size(value.entries) > 0 && Valid() && !addChildValues && !indented
      requires childValues != [] ==> AllFlat(Fill(value).entries) && childValues == ChildTexts(tc, Fill(value).entries)
      modifies this
      ensures Valid() && !addChildValues && !indented && indentString == old(indentString)
      ensures sout == old(sout) + Flatten(StyledElements(tc, ly, Fill(value).entries, indentString))
      decreases Depth(value), 1
    {
      hide StyledElements, Flatten, Fill, ChildTexts, AllFlat, Size, WellFormed;
      FilledFlat(value);
      ghost var es, head, texts := Fill(value).entries, sout, childValues;
      var size := Size(value.entries);
      var hasChildValue := childValues != [];
      var index := 0;
      assert es[0..] == es;
      while true
        invariant index < size == |es|
        invariant Valid() && !addChildValues && !indented && indentString == old(indentString)
        invariant hasChildValue ==> childValues == texts
        invariant sout + Flatten(StyledElements(tc, ly, es[index..], indentString))
               == head + Flatten(StyledElements(tc, ly, es, indentString))
        decreases size - index
      {
        ElementsText(tc, ly, es[index..], indentString);
        assert es[index..][0] == es[index] && es[index..][1..] == es[index + 1..];
        WriteElement(value, index, hasChildValue);
        index := index + 1;
        if index == size {
          assert es[index..] == [];
          NoMembers(tc, ly, indentString);
          break;
        }
        sout := sout + [COMMA];
      }
    }

    /** One element on its own line. */
    method WriteElement(value: Value, index: nat, hasChildValue: bool)
      requires WellFormed(value) && value.Array? && index < Size(value.entries)
      requires Valid() && !addChildValues && !indented
      requires hasChildValue ==> AllFlat(Fill(value).entries) && childValues == ChildTexts(tc, Fill(value).entries)
      modifies this
      ensures Valid() && !addChildValues && !indented && indentString == old(indentString)
      ensures hasChildValue ==> childValues == old(childValues)
      ensures index < |Fill(value).entries|
      ensures sout == old(sout) + (Flatten(ly.NewLine(indentString, false))
                                   + Flatten(Styled(tc, ly, Fill(value).entries[index].value, indentString, true)))
      decreases Depth(value), 0
    {
      hide Flatten, Styled, Fill;
      FilledFlat(value);
      ElementOf(value, index);
      if hasChildValue {
        ghost var v := Fill(value).entries[index].value;
        assert childValues[index] == FlatText(tc, v);
        StyledFlat(tc, ly, v, indentString, true);
        WriteWithIndent(childValues[index]);
      } else {
        if !indented {
          WriteIndent();
        }
        indented := true;
        ChildOf(value, Index(index));
        WriteValue(Child(value, Index(index)));
        indented := false;
      }
    }

    /** writeArrayValue on a single line, from the collected child values. */
    method WriteLine(size: nat, ghost es: seq<Member>)
      requires Valid() && !addChildValues && size == |es| > 0
      requires AllFlat(es) && childValues == ChildTexts(tc, es)
      modifies this`sout
      ensures sout == old(sout) + Flatten(
                [Lexeme([LBRACKET])] + ly.Padding() + LineElements(tc, ly, es) + ly.Padding() + [Lexeme([RBRACKET])])
    {
      hide Flatten, LineElements;
      ghost var start := sout;
      PaddingText(ly, []);
      sout := sout + [LBRACKET];
      if ly.indentation != [] {
        sout := sout + [SPACE];
      }
      assert sout == start + [LBRACKET] + Flatten(ly.Padding());
      WriteLineElements(size, es);
      if ly.indentation != [] {
        sout := sout + [SPACE];
      }
      assert sout == start + [LBRACKET] + Flatten(ly.Padding()) + Flatten(LineElements(tc, ly, es)) + Flatten(ly.Padding());
      sout := sout + [RBRACKET];
      FlattenLine(ly, LineElements(tc, ly, es));
      LineAssembled(start, [LBRACKET], Flatten(ly.Padding()), Flatten(LineElements(tc, ly, es)), [RBRACKET]);
    }

    method WriteLineElements(size: nat, ghost es: seq<Member>)
      requires Valid() && !addChildValues && size == |es| > 0
      requires AllFlat(es) && childValues == ChildTexts(tc, es)
      modifies this`sout
      ensures sout == old(sout) + Flatten(LineElements(tc, ly, es))
    {
      hide LineRest, ChildTexts, SeparatorBefore, AllFlat, Flatten, LineElements;
      ghost var goal := sout + LineRest(es, 0);
      var index := 0;
      LineEnds(sout, size, es);
      ChildCount(tc, es);
      var separator := if ly.indentation != [] then [COMMA, SPACE] else [COMMA];
      SeparatorText();
      while index < size
        invariant index <= size
        invariant sout + SeparatorBefore(size, index) + LineRest(es, index) == goal
      {
        LineTurn(sout, size, es, index, goal);
        if index > 0 {
          sout := sout + separator;
        }
        sout := sout + childValues[index];
        index := index + 1;
      }
      LineEnds(sout, size, es);
    }

    lemma SeparatorText()
      ensures (if ly.indentation != [] then [COMMA, SPACE] else [COMMA]) == [COMMA] + Flatten(ly.Padding())
    {
      PaddingText(ly, []);
    }

    /** What the line still has to show from index on. */
    ghost function LineRest(es: seq<Member>, index: nat): bytes
      requires AllFlat(es) && index <= |es|
    {
      Flatten(LineElements(tc, ly, es[index..]))
    }

    lemma LineEnds(text: bytes, size: nat, es: seq<Member>)
      requires AllFlat(es) && size == |es|
      ensures LineRest(es, 0) == Flatten(LineElements(tc, ly, es))
      ensures text + SeparatorBefore(size, 0) + LineRest(es, 0) == text + LineRest(es, 0)
      ensures text + SeparatorBefore(size, size) + LineRest(es, size) == text
    {
      assert es[0..] == es && es[size..] == [];
      NoMembers(tc, ly, []);
      assert text + [] == text;
    }

    /** One text and the separator before it bring the line nearer to the goal. */
    lemma LineTurn(text: bytes, size: nat, es: seq<Member>, index: nat, goal: bytes)
      requires index < |es| == size && AllFlat(es) && |ChildTexts(tc, es)| == |es|
      requires text + SeparatorBefore(size, index) + LineRest(es, index) == goal
      ensures var lead := if index > 0 then text + ([COMMA] + Flatten(ly.Padding())) else text;
              lead + ChildTexts(tc, es)[index] + SeparatorBefore(size, index + 1) + LineRest(es, index + 1) == goal
    {
      hide Flatten, LineElements, FlatText, ChildTexts, AllFlat;
      LineStep(tc, ly, es, index);
      assert text + [] == text;
      Regrouped(text + SeparatorBefore(size, index), ChildTexts(tc, es)[index], SeparatorBefore(size, index + 1), LineRest(es, index + 1));
    }

    ghost function SeparatorBefore(size: nat, index: nat): bytes {
      if 0 < index < size then [COMMA] + Flatten(ly.Padding()) else []
    }

    /** isMultilineArray, for an array with elements. Unless the answer is known early it collects every element's text. */
    method IsMultilineArray(value: Value) returns (isMultiLine: bool)
      requires WellFormed(value) && value.Array? && Size(value.entries) > 0 && Valid() && !addChildValues && !ly.allComments
      modifies this
      ensures isMultiLine == TooLong(tc, Fill(value).entries)
      ensures childValues != [] || !isMultiLine ==>
                AllFlat(Fill(value).entries) && childValues == ChildTexts(tc, Fill(value).entries)
      ensures Valid() && !addChildValues
      ensures sout == old(sout) && indented == old(indented) && indentString == old(indentString)
      decreases Depth(value), 1
    {
      hide Fill, FlatText, TextLength, Styled, ChildTexts, Size;
      FilledFlat(value);
      ghost var es := Fill(value).entries;
      var size := Size(value.entries);
      isMultiLine := size * 3 % ARRAY_INDEX_RANGE >= RIGHT_MARGIN;
      childValues := [];
      if !isMultiLine {
        isMultiLine := AnyFilledContainer(value);
      }
      if !isMultiLine {
        addChildValues := true;
        var lineLength := (4 + (size - 1) * 2) % ARRAY_INDEX_RANGE;
        lineLength := CollectChildren(value, lineLength);
        addChildValues := false;
        AddMod(4 + (size - 1) * 2, TextLength(tc, es));
        isMultiLine := lineLength >= RIGHT_MARGIN;
      }
    }

    /** The first loop of isMultilineArray. */
    static method AnyFilledContainer(value: Value) returns (any: bool)
      requires WellFormed(value) && value.Array?
      ensures Fill(value).Array? && (any <==> !AllFlat(Fill(value).entries))
    {
      hide Fill, Size;
      FilledFlat(value);
      ghost var es := Fill(value).entries;
      var size := Size(value.entries);
      any := false;
      var index := 0;
      while index < size && !any
        invariant index <= size == |es|
        invariant !any ==> forall i | 0 <= i < index :: Flat(es[i].value)
        invariant any ==> !AllFlat(es)
      {
        var childValue := Child(value, Index(index));
        ElementOf(value, index);
        FilledFlat(childValue);
        any := (childValue.Array? && Size(childValue.entries) > 0) || (childValue.Object? && childValue.entries != []);
        index := index + 1;
      }
    }

    /** The second loop of isMultilineArray. */
    method CollectChildren(value: Value, lineLength0: nat) returns (lineLength: nat)
      requires WellFormed(value) && value.Array? && AllFlat(Fill(value).entries)
      requires addChildValues && childValues == [] && !ly.allComments && lineLength0 < ARRAY_INDEX_RANGE
      modifies this
      ensures childValues == ChildTexts(tc, Fill(value).entries)
      ensures lineLength == (lineLength0 + TextLength(tc, Fill(value).entries)) % ARRAY_INDEX_RANGE
      ensures sout == old(sout) && indented == old(indented) && indentString == old(indentString) && addChildValues
      decreases Depth(value), 0
    {
      hide Fill, Styled, FlatText, TextLength, Size, WellFormed;
      FilledFlat(value);
      ghost var es := Fill(value).entries;
      var size := Size(value.entries);
      lineLength := lineLength0;
      var index := 0;
      assert es[..0] == [];
      NoText(tc);
      while index < size
        invariant index <= size == |es| && AllFlat(es[..index])
        invariant sout == old(sout) && indented == old(indented) && indentString == old(indentString) && addChildValues
        invariant |childValues| == index
        invariant forall i | 0 <= i < index :: childValues[i] == FlatText(tc, es[i].value)
        invariant lineLength == (lineLength0 + TextLength(tc, es[..index])) % ARRAY_INDEX_RANGE
      {
        ElementOf(value, index);
        ChildOf(value, Index(index));
        WriteValue(Child(value, Index(index)));
        LengthStep(tc, es, index, lineLength0, |childValues[index]|);
        lineLength := (lineLength + |childValues[index]|) % ARRAY_INDEX_RANGE;
        index := index + 1;
      }
      assert es[..size] == es;
    }
  }

  lemma LengthStep(tc: TextConfig, es: seq<Member>, i: nat, start: nat, added: nat)
    requires AllFlat(es) && i < |es| && added == |FlatText(tc, es[i].value)|
    ensures AllFlat(es[..i]) && AllFlat(es[..i + 1])
    ensures ((start + TextLength(tc, es[..i])) % ARRAY_INDEX_RANGE + added) % ARRAY_INDEX_RANGE
         == (start + TextLength(tc, es[..i + 1])) % ARRAY_INDEX_RANGE
  {
    hide FlatText;
    TextLengthStep(tc, es, i);
    AddMod(start + TextLength(tc, es[..i]), added);
  }

  lemma NoText(tc: TextConfig)
    ensures TextLength(tc, []) == 0
  {
  }

  lemma AddMod(a: nat, b: nat)
    ensures (a % ARRAY_INDEX_RANGE + b) % ARRAY_INDEX_RANGE == (a + b) % ARRAY_INDEX_RANGE
  {
  }

  lemma StyledFlat(tc: TextConfig, ly: Layout, v: Value, indent: bytes, indented: bool)
    requires Flat(v)
    ensures Flatten(Styled(tc, ly, v, indent, indented)) == FlatText(tc, v)
  {
  }

  lemma NoMembers(tc: TextConfig, ly: Layout, indent: bytes)
    ensures Flatten(StyledMembers(tc, ly, [], indent)) == []
    ensures Flatten(StyledElements(tc, ly, [], indent)) == []
    ensures Flatten(LineElements(tc, ly, [])) == []
  {
  }

  lemma LineAssembled(start: bytes, open: bytes, pad: bytes, line: bytes, close: bytes)
    ensures start + open + pad + line + pad + close == start + (open + pad + line + pad + close)
  {
  }

  lemma FlattenLine(ly: Layout, elements: seq<Piece>)
    ensures Flatten([Lexeme([LBRACKET])] + ly.Padding() + elements + ly.Padding() + [Lexeme([RBRACKET])])
         == [LBRACKET] + Flatten(ly.Padding()) + Flatten(elements) + Flatten(ly.Padding()) + [RBRACKET]
  {
    FlattenFour([Lexeme([LBRACKET])], ly.Padding(), elements, ly.Padding());
    PiecesConcat([Lexeme([LBRACKET])] + ly.Padding() + elements + ly.Padding(), [Lexeme([RBRACKET])]);
    FlattenOne([LBRACKET]);
    FlattenOne([RBRACKET]);
  }
}
