/**
 The main results about the JSON library: the reader reads every text of the grammar,
 and so whatever a printer writes.
 */
module JsonMain {
  import opened Bytes
  import opened Values
  import opened ValueArray
  import opened Quoting
  import opened Lexer
  import opened JsonText
  import opened JsonGrammar
  import opened GrammarReading
  import opened RoundTrip
  import Spec = ReaderSpec
  import Reader
  import ReaderDepth
  import Writers

  // ---- Every text of the grammar ----

  lemma NothingLeft(cfg: Spec.Config, doc: bytes, pos: nat, ps: seq<Piece>)
    requires Sees(doc, pos, ps) && Lexemes(ps) == []
    ensures Spec.FirstToken(cfg, doc, pos) == Token(EndOfStream, |doc|, |doc|)
  {
    SpacesToEnd(doc, pos, ps);
  }

  /**
   Any text of RFC 8259, whatever whitespace stands between its lexemes and whatever the
   root held before: it is accepted if and only if its numbers convert, its surrogate
   escapes are paired, and its root is a container if the reader insists on one. It then
   gives the value it denotes, and takes no more stack levels than it has levels of nesting.
   */
  lemma EveryTextIff(cfg: Spec.Config, j: Json, ps: seq<Piece>, root: Value)
    requires Grammatical(j) && Blank(ps) && Lexemes(ps) == Tokens(j)
    ensures var doc := Flatten(ps);
            var r := Spec.Parse(cfg, doc, root);
            && (r.ok <==> Readable(cfg.toDouble, j) && (cfg.strictRoot ==> j.JArray? || j.JObject?))
            && (Readable(cfg.toDouble, j) ==>
                  r.value == Denote(cfg.toDouble, j) && r.end == |doc| && Spec.ReadValue(cfg, doc, 0, root).depth <= Nesting(j))
  {
    hide Flatten, Lexemes, Tokens, Denote, Readable, Nesting, Spec.ReadValue, Spec.FirstToken, Grammatical;
    var doc := Flatten(ps);
    assert doc[0..] == doc;
    assert Tokens(j) + [] == Tokens(j);
    var qs := ReadTree(cfg, doc, 0, ps, j, [], root);
    var r := Spec.ReadValue(cfg, doc, 0, root);
    if Readable(cfg.toDouble, j) {
      NothingLeft(cfg, doc, r.end, qs);
      RootDenoted(cfg.toDouble, j);
    }
  }

  lemma RootDenoted(toDouble: bytes -> Option<nat>, j: Json)
    requires Readable(toDouble, j)
    ensures Denote(toDouble, j).Array? <==> j.JArray?
    ensures Denote(toDouble, j).Object? <==> j.JObject?
  {
  }

  /**
   The reader does not look at what stands behind the root: a readable text is accepted
   with the same value whatever lexemes follow, if the first of them is punctuation.
   */
  lemma RestIgnored(cfg: Spec.Config, j: Json, ps: seq<Piece>, rest: seq<bytes>, root: Value)
    requires Grammatical(j) && Readable(cfg.toDouble, j) && (cfg.strictRoot ==> j.JArray? || j.JObject?)
    requires Blank(ps) && Lexemes(ps) == Tokens(j) + rest && EndsValue(rest)
    ensures var r := Spec.Parse(cfg, Flatten(ps), root);
            r.ok && r.errors == [] && r.value == Denote(cfg.toDouble, j)
  {
    hide Flatten, Lexemes, Tokens, Denote, Readable, Nesting, Spec.ReadValue, Spec.FirstToken, Grammatical;
    var doc := Flatten(ps);
    assert doc[0..] == doc;
    var qs := ReadTree(cfg, doc, 0, ps, j, rest, root);
    RootDenoted(cfg.toDouble, j);
  }

  /** The text `"\uD800"` of the grammar is rejected. */
  lemma LoneSurrogateRejected(cfg: Spec.Config, root: Value)
    ensures Grammatical(JString([Hex([68, 56, 48, 48])]))
    ensures !Spec.Parse(cfg, [QUOTE, BACKSLASH, 117, 68, 56, 48, 48, QUOTE], root).ok
  {
    hide Spec.Parse;
    var c := Hex([68, 56, 48, 48]);
    var ps := [Lexeme(StringLiteral([c]))];
    assert HexCode(c.digits) == 0xD800 && !Paired([c]);
    assert [c][1..] == [] && CharsText([c]) == CharText(c);
    assert ps[1..] == [] && Flatten(ps[1..]) == [] && Lexemes(ps[1..]) == [];
    assert Flatten(ps) == StringLiteral([c]) == [QUOTE, BACKSLASH, 117, 68, 56, 48, 48, QUOTE];
    EveryTextIff(cfg, JString([c]), ps, root);
  }

  /** The reader object on a text of the grammar with fewer than 1000 opening brackets and braces. */
  method ParseText(reader: Reader.Reader, text: bytes, ghost j: Json, ghost ps: seq<Piece>, root: Value) returns (ok: bool)
    requires Grammatical(j) && Blank(ps) && Lexemes(ps) == Tokens(j) && text == Flatten(ps)
    requires ReaderDepth.Opens(text, 0, |text|) < Reader.STACK_LIMIT
    modifies reader
    ensures ok == reader.Good()
    ensures ok <==> Readable(reader.cfg.toDouble, j) && (reader.cfg.strictRoot ==> j.JArray? || j.JObject?)
    ensures ok ==> reader.root == Denote(reader.cfg.toDouble, j)
  {
    hide Flatten, Lexemes, Tokens, Denote, Readable, Grammatical, Spec.Parse, Spec.ReadValue, ReaderDepth.Opens;
    EveryTextIff(reader.cfg, j, ps, root);
    ReaderDepth.FewOpensFit(reader.cfg, text, root);
    ok := reader.Parse(text, root);
  }

  /** The grammar is unambiguous: however a text is derived, it denotes one value. */
  lemma OneMeaning(toDouble: bytes -> Option<nat>, j: Json, ps: seq<Piece>, k: Json, qs: seq<Piece>)
    requires Grammatical(j) && Blank(ps) && Lexemes(ps) == Tokens(j)
    requires Grammatical(k) && Blank(qs) && Lexemes(qs) == Tokens(k)
    requires Flatten(ps) == Flatten(qs)
    ensures Readable(toDouble, j) <==> Readable(toDouble, k)
    ensures Readable(toDouble, j) ==> Denote(toDouble, j) == Denote(toDouble, k)
  {
    hide Flatten, Lexemes, Tokens, Denote, Readable, Grammatical, Spec.Parse;
    var cfg := Spec.Config(true, false, false, toDouble);
    EveryTextIff(cfg, j, ps, Null);
    EveryTextIff(cfg, k, qs, Null);
  }

  // ---- Printed values ----

  /** Every string and every member name is valid UTF-8. */
  predicate Utf8Strings(v: Value) {
    match v
    case Str(s) => ValidUtf8(s)
    case Array(es) => Utf8Entries(es)
    case Object(es) => Utf8Entries(es)
    case _ => true
  }

  predicate Utf8Member(m: Member) {
    (m.key.Name? ==> ValidUtf8(m.key.name)) && Utf8Strings(m.value)
  }

  predicate Utf8Entries(es: seq<Member>) {
    es != [] ==> Utf8Member(es[0]) && Utf8Entries(es[1..])
  }

  // ---- Filling keeps a value printable and no deeper ----

  lemma {:induction false} FillSendable(v: Value)
    requires WellFormed(v) && RealFree(v) && Utf8Strings(v)
    ensures Sendable(Fill(v)) && Levels(Fill(v)) <= Levels(v)
    decreases v
  {
    match v
    case Array(es) =>
      SlotsSendable(es, 0, Size(es));
      SlotsKeyed(es, 0, Size(es));
    case Object(es) => EntriesSendable(es);
    case _ =>
  }

  lemma MemberSendable(m: Member)
    requires WellFormedMember(m) && RealFreeMember(m) && Utf8Member(m)
    ensures SendableMember(FillMember(m)) && MemberLevels(FillMember(m)) <= MemberLevels(m)
    decreases m
  {
    FillSendable(m.value);
  }

  lemma {:induction false} SlotsSendable(es: seq<Member>, i: nat, size: nat)
    requires i <= size && WellFormedEntries(es) && RealFreeEntries(es) && Utf8Entries(es) && (size > 0 ==> es != [])
    ensures SendableEntries(FillSlots(es, i, size)) && EntriesLevels(FillSlots(es, i, size)) <= EntriesLevels(es)
    decreases es, 1, size - i
  {
    if i < size {
      SlotSendable(es, i);
      SlotsSendable(es, i + 1, size);
      var r := FillSlots(es, i, size);
      assert r[0] == Member(Index(i), FillSlot(es, i)) && r[1..] == FillSlots(es, i + 1, size);
      assert MemberLevels(r[0]) == Levels(FillSlot(es, i));
    }
  }

  lemma SlotSendable(es: seq<Member>, i: nat)
    requires es != [] && WellFormedEntries(es) && RealFreeEntries(es) && Utf8Entries(es)
    ensures Sendable(FillSlot(es, i)) && Levels(FillSlot(es, i)) <= EntriesLevels(es)
    decreases es, 0
  {
    EntryLevels(es, 0);
    if Has(es, Index(i)) {
      var p := LowerBound(es, Index(i));
      EntryGood(es, p);
      MemberSendable(es[p]);
      EntryLevels(es, p);
      assert MemberLevels(es[p]) == Levels(es[p].value);
    }
  }

  lemma {:induction false} EntryGood(es: seq<Member>, p: nat)
    requires WellFormedEntries(es) && RealFreeEntries(es) && Utf8Entries(es) && p < |es|
    ensures WellFormedMember(es[p]) && RealFreeMember(es[p]) && Utf8Member(es[p])
    decreases p
  {
    if p > 0 {
      EntryGood(es[1..], p - 1);
    }
  }

  lemma {:induction false} SlotsKeyed(es: seq<Member>, i: nat, size: nat)
    requires i <= size
    ensures Keyed(FillSlots(es, i, size), i)
    decreases size - i
  {
    if i < size {
      SlotsKeyed(es, i + 1, size);
    }
  }

  lemma {:induction false} EntriesSendable(es: seq<Member>)
    requires WellFormedEntries(es) && RealFreeEntries(es) && Utf8Entries(es)
    requires Sorted(es) && forall k | 0 <= k < |es| :: es[k].key.Name?
    ensures SendableEntries(FillEntries(es)) && EntriesLevels(FillEntries(es)) <= EntriesLevels(es)
    ensures Sorted(FillEntries(es)) && Named(FillEntries(es))
    decreases es
  {
    if es != [] {
      MemberSendable(es[0]);
      EntriesSendable(es[1..]);
      var r := FillEntries(es);
      assert r[0] == FillMember(es[0]) && r[1..] == FillEntries(es[1..]);
    }
    forall k | 0 <= k < |es|
      ensures FillEntries(es)[k].key == es[k].key && Utf8Member(es[k])
    {
      FillEntriesAt(es, k);
      EntryGood(es, k);
    }
  }

  // ---- The round trip ----

  /** What the reader makes of the printed value: array gaps filled with null, integers in the reader's own types. */
  function ReadBack(v: Value): Value {
    Retag(Fill(v))
  }

  /** r is a successful parse of the whole document that gives the printed value back. */
  ghost predicate GivesBack(r: Spec.Outcome, doc: bytes, v: Value) {
    r.ok && r.errors == [] && r.value == ReadBack(v) && r.end == |doc|
  }

  /**
   Every layout of a value's text is read as that value, over whatever the root
   held before, with no error and to the end of the document, and on the node stack
   it takes no more levels than the value has.
   */
  lemma StyledRoundTrip(cfg: Spec.Config, tc: TextConfig, ly: Layout, v: Value, root: Value)
    requires ly.Valid() && tc.nullText == NULL_TEXT
    requires WellFormed(v) && RealFree(v) && Utf8Strings(v)
    requires cfg.strictRoot ==> v.Array? || v.Object?
    ensures var doc := Flatten(Styled(tc, ly, Fill(v), [], true));
            && GivesBack(Spec.Parse(cfg, doc, root), doc, v)
            && Spec.ReadValue(cfg, doc, 0, root).depth <= Levels(v)
  {
    hide Styled, Flatten, Lexemes, Retag, LexemesOf, Spec.ReadValue, Spec.FirstToken;
    var ps := Styled(tc, ly, Fill(v), [], true);
    var doc := Flatten(ps);
    FillSendable(v);
    StyledSpells(tc, ly, Fill(v), [], true);
    assert doc[0..] == doc;
    assert LexemesOf(tc, Fill(v)) + [] == LexemesOf(tc, Fill(v));
    var qs := ReadLexemes(cfg, tc, doc, 0, ps, Fill(v), [], root);
    var r := Spec.ReadValue(cfg, doc, 0, root);
    NothingLeft(cfg, doc, r.end, qs);
    RootKept(v);
  }

  lemma RootKept(v: Value)
    ensures ReadBack(v).Array? <==> v.Array?
    ensures ReadBack(v).Object? <==> v.Object?
  {
  }

  /** The same for the plain printer, whose compact text is a layout with no indentation. */
  lemma FastRoundTrip(cfg: Spec.Config, tc: TextConfig, yaml: bool, v: Value, root: Value)
    requires tc.nullText == NULL_TEXT && WellFormed(v) && RealFree(v) && Utf8Strings(v)
    requires cfg.strictRoot ==> v.Array? || v.Object?
    ensures var doc := FastText(tc, if yaml then [COLON, SPACE] else [COLON], Fill(v));
            GivesBack(Spec.Parse(cfg, doc, root), doc, v)
  {
    hide GivesBack, Styled, Fill;
    var ly := Layout([], false, [], if yaml then [SPACE] else []);
    StyledIsFast(tc, ly, Fill(v), [], true);
    assert ly.ColonSymbol() == if yaml then [COLON, SPACE] else [COLON];
    StyledRoundTrip(cfg, tc, ly, v, root);
  }

  /**
   A writer prints a value and a reader parses the text: the reader succeeds and its
   root is the value, whatever the root and the reader held before.
   */
  method WriteThenParse(writer: Writers.BuiltStyledStreamWriter, reader: Reader.Reader, v: Value, root: Value) returns (ok: bool)
    requires writer.Valid() && writer.ly.Valid() && writer.tc.nullText == NULL_TEXT && writer.sout == []
    requires WellFormed(v) && RealFree(v) && Utf8Strings(v) && Levels(v) <= Reader.STACK_LIMIT
    requires reader.cfg.strictRoot ==> v.Array? || v.Object?
    modifies writer, reader
    ensures ok && reader.Good() && reader.root == ReadBack(v)
    ensures Canonical(v) ==> reader.root == v
  {
    hide Styled, Spec.Parse, Spec.ReadValue, Retag, Fill, Canonical;
    writer.Write(v);
    StyledRoundTrip(reader.cfg, writer.tc, writer.ly, v, root);
    UnchangedIffCanonical(v);
    assert writer.sout == Flatten(Styled(writer.tc, writer.ly, Fill(v), [], true));
    ok := reader.Parse(writer.sout, root);
  }

  // ---- Layouts the builder makes ----

  /** StreamWriterBuilder::newStreamWriter: the colon symbol follows from the other settings. */
  function BuilderLayout(indentation: bytes, allComments: bool, yaml: bool): Layout {
    if yaml then Layout(indentation, allComments, [], [SPACE])
    else if indentation == [] then Layout(indentation, allComments, [], [])
    else Layout(indentation, allComments, [SPACE], [SPACE])
  }

  /**
   Any whitespace indentation, either comment style and YAML colons or not: two
   writers with different settings print texts that read as the same value.
   */
  lemma LayoutDoesNotMatter(cfg: Spec.Config, tc: TextConfig, v: Value, root: Value,
                            ind1: bytes, all1: bool, yaml1: bool, ind2: bytes, all2: bool, yaml2: bool)
    requires AllSpaces(ind1) && AllSpaces(ind2) && tc.nullText == NULL_TEXT
    requires WellFormed(v) && RealFree(v) && Utf8Strings(v)
    requires cfg.strictRoot ==> v.Array? || v.Object?
    ensures var text1 := Flatten(Styled(tc, BuilderLayout(ind1, all1, yaml1), Fill(v), [], true));
            var text2 := Flatten(Styled(tc, BuilderLayout(ind2, all2, yaml2), Fill(v), [], true));
            && Spec.Parse(cfg, text1, root).value == Spec.Parse(cfg, text2, root).value == ReadBack(v)
            && Spec.Parse(cfg, text1, root).ok && Spec.Parse(cfg, text2, root).ok
  {
    hide Styled, Fill, Spec.Parse, Retag;
    StyledRoundTrip(cfg, tc, BuilderLayout(ind1, all1, yaml1), v, root);
    StyledRoundTrip(cfg, tc, BuilderLayout(ind2, all2, yaml2), v, root);
  }

  /** With empty indentation the builder's writer prints, byte for byte, what FastWriter prints. */
  lemma CompactIsFast(tc: TextConfig, allComments: bool, yaml: bool, v: Value)
    ensures Flatten(Styled(tc, BuilderLayout([], allComments, yaml), v, [], true))
         == FastText(tc, if yaml then [COLON, SPACE] else [COLON], v)
  {
    hide Styled;
    var ly := BuilderLayout([], allComments, yaml);
    StyledIsFast(tc, ly, v, [], true);
    assert ly.ColonSymbol() == if yaml then [COLON, SPACE] else [COLON];
  }

  // ---- When nothing at all changes ----

  /** Integers carry the tag the reader would choose, and arrays have no gaps. */
  predicate Canonical(v: Value) {
    match v
    case Int(i) => i <= MAX_INT32
    case UInt(u) => u > MAX_INT32
    case Array(es) => |es| == Size(es) && Keyed(es, 0) && CanonicalEntries(es)
    case Object(es) => CanonicalEntries(es)
    case _ => true
  }

  predicate CanonicalMember(m: Member) {
    Canonical(m.value)
  }

  predicate CanonicalEntries(es: seq<Member>) {
    es != [] ==> CanonicalMember(es[0]) && CanonicalEntries(es[1..])
  }

  /** The value read back is the very value printed exactly when that value is canonical. */
  lemma {:induction false} UnchangedIffCanonical(v: Value)
    requires WellFormed(v)
    ensures ReadBack(v) == v <==> Canonical(v)
    decreases v
  {
    match v
    case Array(es) =>
      ArrayReadBack(es);
    case Object(es) => EntriesUnchanged(es);
    case _ =>
  }

  lemma MemberUnchanged(m: Member)
    requires WellFormedMember(m)
    ensures RetagMember(FillMember(m)) == m <==> CanonicalMember(m)
    decreases m
  {
    UnchangedIffCanonical(m.value);
  }

  lemma {:induction false} EntriesUnchanged(es: seq<Member>)
    requires WellFormedEntries(es)
    ensures RetagEntries(FillEntries(es)) == es <==> CanonicalEntries(es)
    decreases es, 0
  {
    if es != [] {
      MemberUnchanged(es[0]);
      EntriesUnchanged(es[1..]);
      var f, r := FillEntries(es), RetagEntries(FillEntries(es));
      assert f[0] == FillMember(es[0]) && f[1..] == FillEntries(es[1..]);
      assert r[0] == RetagMember(f[0]) && r[1..] == RetagEntries(f[1..]);
      assert es == [es[0]] + es[1..] && r == [r[0]] + r[1..];
    }
  }

  /** A filled array keeps every key it has, so filling a gapless array only fills its elements. */
  lemma ArrayReadBack(es: seq<Member>)
    requires WellFormed(Array(es))
    ensures RetagEntries(FillSlots(es, 0, Size(es))) == es <==> Canonical(Array(es))
    decreases es, 1
  {
    var f := FillSlots(es, 0, Size(es));
    var r := RetagEntries(f);
    SlotsKeyed(es, 0, Size(es));
    RetagKeys(f);
    assert r == es ==> Keyed(es, 0) && |es| == Size(es);
    if |es| == Size(es) && Keyed(es, 0) {
      FillDense(es, 0);
      assert es[0..] == es;
      EntriesUnchanged(es);
    }
  }

  lemma {:induction false} RetagKeys(es: seq<Member>)
    ensures forall i | 0 <= i < |es| :: RetagEntries(es)[i].key == es[i].key
    decreases |es|
  {
    if es != [] {
      RetagKeys(es[1..]);
    }
  }

  lemma {:induction false} FillDense(es: seq<Member>, i: nat)
    requires Keyed(es, 0) && i <= |es|
    ensures FillSlots(es, i, |es|) == FillEntries(es[i..])
    decreases |es| - i
  {
    if i < |es| {
      LowerBoundUnique(es, Index(i), i);
      FillDense(es, i + 1);
      assert es[i..][0] == es[i] && es[i..][1..] == es[i + 1..];
      assert FillMember(es[i]) == Member(Index(i), FillSlot(es, i));
    }
  }
}
