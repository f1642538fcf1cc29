/**
 Where the reader takes more than the grammar of RFC 8259: exactly when it does,
 for all texts of the kind, and one text of each.
 */
module ReaderQuirks {
  import opened Bytes
  import opened Values
  import opened Quoting
  import opened Decimal
  import opened Lexer
  import opened JsonText
  import opened JsonGrammar
  import opened GrammarReading
  import Spec = ReaderSpec

  // ---- A comma behind the last member ----

  /** Behind the comma the object ends only if the last name was empty. */
  lemma {:induction false} ReadTrailingComma(cfg: Spec.Config, doc: bytes, pos: nat, ps: seq<Piece>, fields: seq<Field>,
                                             done: seq<Member>, name: bytes, rest: seq<bytes>)
    requires Sees(doc, pos, ps) && fields != [] && GrammaticalFields(fields)
    requires Lexemes(ps) == FieldTokens(fields) + ([[COMMA]] + ([[RBRACE]] + rest))
    ensures var r := Spec.ReadMembers(cfg, doc, pos, Object(done), name);
            && (r.ok <==> ReadableFields(cfg.toDouble, fields) && Meaning(fields[|fields| - 1].name) == [])
            && (ReadableFields(cfg.toDouble, fields) ==> r.value == Object(DenoteFields(cfg.toDouble, fields, done)))
    decreases |fields|
  {
    hide Lexer.ReadToken, SkipComments, Spec.ReadName, Spec.ReadMember, FieldTokens, Sees, Lexemes, RecoverEnd, Spec.ReadMembers;
    hide Put, Meaning, Paired, DenoteField, Readable, FieldNesting, GrammaticalField;
    var next, named, r := ReadFieldTurn(cfg, doc, pos, ps, fields, done, name, COMMA, [[RBRACE]] + rest);
    MembersTurn(cfg, doc, pos, Object(done), name);
    assert |fields| == 1 ==> fields[1..] == [];
    assert ReadableFields(cfg.toDouble, fields) <==> ReadableField(cfg.toDouble, fields[0]) && ReadableFields(cfg.toDouble, fields[1..]);
    if ReadableField(cfg.toDouble, fields[0]) {
      var end := Lexer.ReadToken(doc, r.end).end;
      var done' := Put(done, Name(Meaning(fields[0].name)), DenoteField(cfg.toDouble, fields[0]));
      if |fields| == 1 {
        MembersTurn(cfg, doc, end, Object(done'), Meaning(fields[0].name));
        var _ := ReadPunctuation(doc, end, next, RBRACE, ObjectEnd, rest);
        BraceAfterComma(doc, end, Object(done'), Meaning(fields[0].name));
      } else {
        ReadTrailingComma(cfg, doc, end, next, fields[1..], done', Meaning(fields[0].name), rest);
      }
    }
  }

  lemma MembersTurn(cfg: Spec.Config, doc: bytes, i: nat, obj: Value, name: bytes)
    requires i <= |doc|
    ensures var s := Spec.ReadName(doc, i, obj, name);
            var r := Spec.ReadMembers(cfg, doc, i, obj, name);
            && (s.NoName? ==> r == s.outcome)
            && (s.NameRead? && Spec.ReadMember(cfg, doc, s.end, obj, s.name).Done? ==>
                  r == Spec.ReadMember(cfg, doc, s.end, obj, s.name).outcome)
            && (s.NameRead? && Spec.ReadMember(cfg, doc, s.end, obj, s.name).Continue? ==>
                  var next := Spec.ReadMember(cfg, doc, s.end, obj, s.name);
                  var rest := Spec.ReadMembers(cfg, doc, next.end, next.value, s.name);
                  r.ok == rest.ok && r.value == rest.value)
  {
    hide Spec.ReadName, Spec.ReadMember;
  }

  lemma BraceAfterComma(doc: bytes, i: nat, obj: Value, name: bytes)
    requires i <= |doc| && SkipComments(doc, i).kind == ObjectEnd
    ensures var s := Spec.ReadName(doc, i, obj, name);
            s.NoName? && s.outcome.value == obj && (s.outcome.ok <==> name == [])
  {
    hide SkipComments;
  }

  /**
   An object of the grammar with a comma behind its last member: whatever whitespace stands
   between its lexemes, it parses if and only if it would without the comma and the last
   name is empty.
   */
  lemma TrailingCommaIff(cfg: Spec.Config, ps: seq<Piece>, fields: seq<Field>, root: Value)
    requires fields != [] && Grammatical(JObject(fields)) && Blank(ps)
    requires Lexemes(ps) == [[LBRACE]] + (FieldTokens(fields) + ([[COMMA]] + ([[RBRACE]] + [])))
    ensures var r := Spec.Parse(cfg, Flatten(ps), root);
            var j := JObject(fields);
            && (r.ok <==> Readable(cfg.toDouble, j) && Meaning(fields[|fields| - 1].name) == [])
            && (Readable(cfg.toDouble, j) ==> r.value == Denote(cfg.toDouble, j))
  {
    hide Lexer.ReadToken, SkipComments, Sees, Lexemes, Spec.ReadMembers, Spec.ReadScalar, FieldTokens, Spec.FirstToken, Meaning;
    hide ReadableFields, DenoteFields, GrammaticalFields;
    var doc := Flatten(ps);
    SeesAll(ps);
    var inner := FieldTokens(fields) + ([[COMMA]] + ([[RBRACE]] + []));
    var open := ReadPunctuation(doc, 0, ps, LBRACE, ObjectBegin, inner);
    var t := Lexer.ReadToken(doc, 0);
    ReadTrailingComma(cfg, doc, t.end, open, fields, [], [], []);
    FirstBrace(cfg, doc, root);
  }

  lemma SeesAll(ps: seq<Piece>)
    requires Blank(ps)
    ensures Sees(Flatten(ps), 0, ps)
  {
    assert Flatten(ps)[0..] == Flatten(ps);
  }

  lemma FirstBrace(cfg: Spec.Config, doc: bytes, root: Value)
    requires var t := Lexer.ReadToken(doc, 0);
             t.kind == ObjectBegin && SkipComments(doc, 0) == t
    ensures var r := Spec.ReadMembers(cfg, doc, Lexer.ReadToken(doc, 0).end, Object([]), []);
            Spec.ReadValue(cfg, doc, 0, root) == Spec.Deeper(r)
  {
    hide Lexer.ReadToken, SkipComments, Spec.ReadMembers, Spec.ReadScalar;
  }

  /** The pieces of a text without whitespace. */
  function Tight(xs: seq<bytes>): (ps: seq<Piece>)
    ensures Blank(ps) && Lexemes(ps) == xs
  {
    if xs == [] then [] else [Lexeme(xs[0])] + Tight(xs[1..])
  }

  /** An object of one member, of value 1, with a comma behind it. */
  function OneMemberComma(key: bytes): bytes {
    [LBRACE] + key + [COLON, 49, COMMA, RBRACE]
  }

  /** The tree of such an object without the comma. */
  function OneField(name: seq<Char>): seq<Field> {
    [Field(name, JNumber(Numeral(false, [49], [], [])))]
  }

  /** `{"":1,}` is accepted, `{"a":1,}` is not. */
  lemma TrailingCommaExamples(cfg: Spec.Config, root: Value)
    ensures var r := Spec.Parse(cfg, OneMemberComma([QUOTE, QUOTE]), root);
            r.ok && r.value == Object([Member(Name([]), Int(1))])
    ensures !Spec.Parse(cfg, OneMemberComma([QUOTE, 97, QUOTE]), root).ok
  {
    hide Spec.Parse, StringLiteral;
    OneMemberCommaIff(cfg, [], [], root);
    OneMemberCommaIff(cfg, [Plain(97)], [97], root);
    NameExamples();
  }

  lemma NameExamples()
    ensures StringLiteral([]) == [QUOTE, QUOTE] && StringLiteral([Plain(97)]) == [QUOTE, 97, QUOTE]
    ensures Meaning([]) == [] && Meaning([Plain(97)]) == [97]
  {
    assert [Plain(97)][1..] == [];
    assert CharsText([]) == [];
    assert CharsText([Plain(97)]) == [97];
  }

  lemma OneMemberCommaIff(cfg: Spec.Config, cs: seq<Char>, name: bytes, root: Value)
    requires GoodChars(cs) && Paired(cs) && Meaning(cs) == name
    ensures var r := Spec.Parse(cfg, OneMemberComma(StringLiteral(cs)), root);
            && (r.ok <==> name == []) && r.value == Object([Member(Name(name), Int(1))])
  {
    hide Spec.Parse, StringLiteral, FieldTokens, Grammatical, Readable, Denote;
    var fields := OneField(cs);
    var key := StringLiteral(cs);
    OneFieldMeaning(cfg, cs);
    var xs: seq<bytes> := [[LBRACE], key, [COLON], [49], [COMMA], [RBRACE]];
    assert [LBRACE] + key + [COLON] + [49] + [COMMA] + [RBRACE] == OneMemberComma(key);
    assert xs == [[LBRACE]] + (FieldTokens(fields) + ([[COMMA]] + ([[RBRACE]] + [])));
    FlattenSix([LBRACE], key, [COLON], [49], [COMMA], [RBRACE]);
    TrailingCommaIff(cfg, Tight(xs), fields, root);
  }

  lemma OneFieldMeaning(cfg: Spec.Config, cs: seq<Char>)
    requires GoodChars(cs) && Paired(cs)
    ensures var fields := OneField(cs);
            && FieldTokens(fields) == [StringLiteral(cs), [COLON], [49]]
            && Grammatical(JObject(fields)) && Readable(cfg.toDouble, JObject(fields))
            && Denote(cfg.toDouble, JObject(fields)) == Object([Member(Name(Meaning(cs)), Int(1))])
  {
    hide StringLiteral, GoodChars, Paired, Meaning, NumberText, NumberMeaning, GoodNumber, Put;
    var fields := OneField(cs);
    var n := Numeral(false, [49], [], []);
    NumeralOne(cfg.toDouble);
    assert fields[1..] == [];
    assert Grammatical(JNumber(n)) && Readable(cfg.toDouble, JNumber(n)) && Denote(cfg.toDouble, JNumber(n)) == Int(1);
    assert GrammaticalFields(fields) && ReadableFields(cfg.toDouble, fields);
    assert FieldTokens(fields) == OneFieldTokens(fields[0]);
    PutIntoEmpty(Name(Meaning(cs)), Int(1));
    assert DenoteFields(cfg.toDouble, fields, []) == Put([], Name(Meaning(cs)), Int(1));
  }

  lemma NumeralOne(toDouble: bytes -> Option<nat>)
    ensures var n := Numeral(false, [49], [], []);
            GoodNumber(n) && NumberText(n) == [49] && NumberMeaning(toDouble, n) == Some(Int(1))
  {
    assert [49][..0] == [];
    assert DecimalValue([49]) == 1;
  }

  lemma FlattenSix(a: bytes, b: bytes, c: bytes, d: bytes, e: bytes, f: bytes)
    ensures Flatten(Tight([a, b, c, d, e, f])) == a + b + c + d + e + f
  {
    hide Tight, Flatten;
    TightFlat(a, [b, c, d, e, f]);
    TightFlat(b, [c, d, e, f]);
    TightFlat(c, [d, e, f]);
    TightFlat(d, [e, f]);
    TightFlat(e, [f]);
    TightFlat(f, []);
    NoText();
    assert [a, b, c, d, e, f] == [a] + [b, c, d, e, f] && [b, c, d, e, f] == [b] + [c, d, e, f];
    assert [c, d, e, f] == [c] + [d, e, f] && [d, e, f] == [d] + [e, f] && [e, f] == [e] + [f] && [f] == [f] + [];
  }

  lemma NoText()
    ensures Flatten(Tight([])) == []
  {
  }

  lemma TightFlat(x: bytes, xs: seq<bytes>)
    ensures Flatten(Tight([x] + xs)) == x + Flatten(Tight(xs))
  {
    assert ([x] + xs)[1..] == xs;
    var ps := Tight([x] + xs);
    assert ps[0] == Lexeme(x) && ps[1..] == Tight(xs);
  }

  // ---- A comment where a comma is expected ----

  /** Behind a comment the object ends at a brace, and any other token whatever is passed over as the comma. */
  lemma AnyTokenForComma(doc: bytes, i: nat, obj: Value, depth: nat)
    requires i <= |doc| && Lexer.ReadToken(doc, i).kind == Comment
    ensures var t := SkipComments(doc, i);
            Spec.AfterMember(doc, i, obj, depth)
            == if t.kind == ObjectEnd then Spec.Done(Spec.Outcome(true, obj, t.end, [], depth)) else Spec.Continue(obj, t.end, depth)
  {
    hide SkipComments, Lexer.ReadToken;
  }

  /**
   Two texts: in one a member is followed by a comma, in the other by a comment and any
   token other than a closing brace. If the same members follow, both give the same object.
   */
  lemma CommentReadsAsComma(cfg: Spec.Config, doc: bytes, i: nat, doc': bytes, i': nat, done: seq<Member>, name: bytes,
                            fields: seq<Field>, ps: seq<Piece>, rest: seq<bytes>, depth: nat)
    requires i <= |doc| && Lexer.ReadToken(doc, i).kind == ArraySeparator && Sees(doc, Lexer.ReadToken(doc, i).end, ps)
    requires i' <= |doc'| && Lexer.ReadToken(doc', i').kind == Comment
    requires SkipComments(doc', i').kind != ObjectEnd && Sees(doc', SkipComments(doc', i').end, ps)
    requires fields != [] && GrammaticalFields(fields) && Lexemes(ps) == FieldTokens(fields) + ([[RBRACE]] + rest)
    ensures Spec.AfterMember(doc, i, Object(done), depth) == Spec.Continue(Object(done), Lexer.ReadToken(doc, i).end, depth)
    ensures Spec.AfterMember(doc', i', Object(done), depth) == Spec.Continue(Object(done), SkipComments(doc', i').end, depth)
    ensures var r := Spec.ReadMembers(cfg, doc, Lexer.ReadToken(doc, i).end, Object(done), name);
            var r' := Spec.ReadMembers(cfg, doc', SkipComments(doc', i').end, Object(done), name);
            && r.ok == r'.ok == ReadableFields(cfg.toDouble, fields)
            && (r.ok ==> r.value == r'.value == Object(DenoteFields(cfg.toDouble, fields, done)))
  {
    hide SkipComments, Lexer.ReadToken, Spec.ReadMembers, Sees, Lexemes, FieldTokens, ReadableFields, DenoteFields, GrammaticalFields;
    AnyTokenForComma(doc', i', Object(done), depth);
    CommaContinues(doc, i, Object(done), depth);
    var _ := ReadFields(cfg, doc, Lexer.ReadToken(doc, i).end, ps, fields, done, name, rest);
    var _ := ReadFields(cfg, doc', SkipComments(doc', i').end, ps, fields, done, name, rest);
  }

  predicate IsObject(r: Spec.Outcome, es: seq<Member>) {
    r.ok && r.value == Object(es)
  }

  lemma CommaContinues(doc: bytes, i: nat, obj: Value, depth: nat)
    requires i <= |doc| && Lexer.ReadToken(doc, i).kind == ArraySeparator
    ensures Spec.AfterMember(doc, i, obj, depth) == Spec.Continue(obj, Lexer.ReadToken(doc, i).end, depth)
  {
  }

  /** `{"a":1` and a comment, then `true"b":2}`. */
  const TRUE_FOR_COMMA: bytes :=
    [LBRACE, QUOTE, 97, QUOTE, COLON, 49, SLASH, STAR, STAR, SLASH, 116, 114, 117, 101, QUOTE, 98, QUOTE, COLON, 50, RBRACE]

  lemma PunctuationAt(doc: bytes, p: nat, kind: TokenType)
    requires p < |doc| && PunctuationType(doc[p]) == Some(kind)
    ensures Lexer.ReadToken(doc, p) == Token(kind, p, p + 1)
  {
  }

  lemma DigitAt(doc: bytes, p: nat)
    requires p + 1 < |doc| && IsDigit(doc[p]) && EndsNumber(doc, p + 1)
    ensures Lexer.ReadToken(doc, p) == Token(Number, p, p + 1)
  {
  }

  lemma LetterStringAt(doc: bytes, p: nat)
    requires p + 2 < |doc| && doc[p] == QUOTE && 97 <= doc[p + 1] <= 122 && doc[p + 2] == QUOTE
    ensures Lexer.ReadToken(doc, p) == Token(String, p, p + 3)
  {
    assert ScanString(doc, p + 2) == (true, p + 3) && ScanString(doc, p + 1) == (true, p + 3);
  }

  lemma ExampleTokens()
    ensures var doc := TRUE_FOR_COMMA;
            && Lexer.ReadToken(doc, 0) == Token(ObjectBegin, 0, 1) && Lexer.ReadToken(doc, 1) == Token(String, 1, 4)
            && Lexer.ReadToken(doc, 4) == Token(MemberSeparator, 4, 5) && Lexer.ReadToken(doc, 5) == Token(Number, 5, 6)
  {
    hide Lexer.ReadToken;
    PunctuationAt(TRUE_FOR_COMMA, 0, ObjectBegin);
    LetterStringAt(TRUE_FOR_COMMA, 1);
    PunctuationAt(TRUE_FOR_COMMA, 4, MemberSeparator);
    DigitAt(TRUE_FOR_COMMA, 5);
  }

  lemma ExampleComment()
    ensures Lexer.ReadToken(TRUE_FOR_COMMA, 6) == Token(Comment, 6, 10)
    ensures Lexer.ReadToken(TRUE_FOR_COMMA, 10) == Token(True, 10, 14)
  {
    assert CStyleEnd(TRUE_FOR_COMMA, 8) == (true, 10);
    assert TRUE_FOR_COMMA[11..14] == TRUE_TEXT[1..];
  }

  lemma ExampleTokensBehind()
    ensures var doc := TRUE_FOR_COMMA;
            && Lexer.ReadToken(doc, 14) == Token(String, 14, 17)
            && Lexer.ReadToken(doc, 17) == Token(MemberSeparator, 17, 18) && Lexer.ReadToken(doc, 18) == Token(Number, 18, 19)
            && Lexer.ReadToken(doc, 19) == Token(ObjectEnd, 19, 20)
  {
    hide Lexer.ReadToken;
    LetterStringAt(TRUE_FOR_COMMA, 14);
    PunctuationAt(TRUE_FOR_COMMA, 17, MemberSeparator);
    DigitAt(TRUE_FOR_COMMA, 18);
    PunctuationAt(TRUE_FOR_COMMA, 19, ObjectEnd);
  }

  /** One plain member of a text, up to what follows it. */
  lemma PlainMember(cfg: Spec.Config, doc: bytes, i: nat, done: seq<Member>, name: bytes, c: byte, n: nat)
    requires i + 5 < |doc| && 97 <= c <= 122 && n <= 9
    requires Lexer.ReadToken(doc, i) == Token(String, i, i + 3) && doc[i..i + 3] == [QUOTE, c, QUOTE]
    requires Lexer.ReadToken(doc, i + 3) == Token(MemberSeparator, i + 3, i + 4)
    requires Lexer.ReadToken(doc, i + 4) == Token(Number, i + 4, i + 5) && doc[i + 4] == ZERO + n
    ensures Spec.ReadName(doc, i, Object(done), name) == Spec.NameRead([c], i + 3)
    ensures Spec.ReadMember(cfg, doc, i + 3, Object(done), [c])
         == Spec.AfterMember(doc, i + 5, Object(Put(done, Name([c]), Int(n))), 1)
  {
    hide Lexer.ReadToken, Spec.AfterMember, Put;
    assert doc[i + 1] == doc[i..i + 3][1] && Decode(doc, i + 2, i + 2) == Decoded([]);
    assert Decode(doc, i + 1, i + 2) == Decoded([c]);
    assert Spec.Text(doc, Token(Number, i + 4, i + 5)) == IntText(n);
    DecodeIntText(n);
  }

  const FIRST: Member := Member(Name([97]), Int(1))

  const SECOND: Member := Member(Name([98]), Int(2))

  lemma ExampleBehindComment(cfg: Spec.Config)
    ensures IsObject(Spec.ReadMembers(cfg, TRUE_FOR_COMMA, 14, Object([FIRST]), [97]), [FIRST, SECOND])
  {
    hide Lexer.ReadToken, SkipComments, Spec.ReadName, Spec.ReadMember, Spec.ReadMembers;
    var doc := TRUE_FOR_COMMA;
    ExampleTokensBehind();
    assert doc[14..17] == [QUOTE, 98, QUOTE];
    PlainMember(cfg, doc, 14, [FIRST], [97], 98, 2);
    assert KeyLess(FIRST.key, SECOND.key);
    PutAppends([FIRST], SECOND.key, SECOND.value);
    assert [FIRST] + [SECOND] == [FIRST, SECOND];
    BraceEnds(doc, 19, Object([FIRST, SECOND]), 1);
    MembersTurn(cfg, doc, 14, Object([FIRST]), [97]);
  }

  lemma BraceEnds(doc: bytes, i: nat, obj: Value, depth: nat)
    requires i <= |doc| && Lexer.ReadToken(doc, i).kind == ObjectEnd
    ensures Spec.AfterMember(doc, i, obj, depth) == Spec.Done(Spec.Outcome(true, obj, Lexer.ReadToken(doc, i).end, [], depth))
  {
  }

  lemma OneTokenComment(doc: bytes, i: nat)
    requires i <= |doc| && Lexer.ReadToken(doc, i).kind == Comment
    requires Lexer.ReadToken(doc, Lexer.ReadToken(doc, i).end).kind != Comment
    ensures SkipComments(doc, i) == Lexer.ReadToken(doc, Lexer.ReadToken(doc, i).end)
  {
  }

  /** The `true` behind the comment is passed over: the text reads as `{"a":1,"b":2}`. */
  lemma TrueForCommaExample(cfg: Spec.Config, root: Value)
    ensures IsObject(Spec.Parse(cfg, TRUE_FOR_COMMA, root), [FIRST, SECOND])
  {
    hide Lexer.ReadToken, SkipComments, Spec.ReadName, Spec.ReadMember, Spec.ReadMembers, Spec.AfterMember, Spec.FirstToken, Spec.ReadValue;
    var doc := TRUE_FOR_COMMA;
    ExampleTokens();
    ExampleComment();
    assert doc[1..4] == [QUOTE, 97, QUOTE];
    PlainMember(cfg, doc, 1, [], [], 97, 1);
    PutIntoEmpty(FIRST.key, FIRST.value);
    OneTokenComment(doc, 6);
    AnyTokenForComma(doc, 6, Object([FIRST]), 1);
    MembersTurn(cfg, doc, 1, Object([]), []);
    ExampleBehindComment(cfg);
    NoComment(doc, 0);
    FirstBrace(cfg, doc, root);
  }

  lemma NoComment(doc: bytes, i: nat)
    requires i <= |doc| && Lexer.ReadToken(doc, i).kind != Comment
    ensures SkipComments(doc, i) == Lexer.ReadToken(doc, i)
  {
  }

  // ---- The end of the text ----

  /** The reader sees the end exactly at the end of the text and at a NUL byte. */
  lemma EndIffNul(doc: bytes, i: nat)
    requires i <= |doc|
    ensures var p := SkipSpaces(doc, i);
            Lexer.ReadToken(doc, i).kind == EndOfStream <==> p == |doc| || doc[p] == NUL
  {
  }

  /** So recovery goes no further than a NUL, whatever it looks for behind it. */
  lemma RecoveryStopsAtNul(doc: bytes, i: nat, kind: TokenType)
    requires i <= |doc| && SkipSpaces(doc, i) < |doc| && doc[SkipSpaces(doc, i)] == NUL
    ensures RecoverEnd(doc, i, kind) == SkipSpaces(doc, i) + 1
  {
    hide SkipSpaces;
  }

  lemma EndExpected(cfg: Spec.Config, doc: bytes, root: Value)
    requires Lexer.ReadToken(doc, 0).kind == EndOfStream
    ensures var r := Spec.Parse(cfg, doc, root);
            && !r.ok && r.value == root && r.errors != []
            && r.errors[0].message == Spec.ValueExpected && r.errors[0].token.kind == EndOfStream
  {
    hide Lexer.ReadToken;
  }

  /** A text that is one NUL byte is rejected as an empty text is: a value was expected. */
  lemma NulExample(cfg: Spec.Config, root: Value)
    ensures var r, e := Spec.Parse(cfg, [NUL], root), Spec.Parse(cfg, [], root);
            && r.errors != [] && e.errors != [] && r.value == root && e.value == root
            && r.errors[0].message == Spec.ValueExpected && e.errors[0].message == Spec.ValueExpected
            && r.errors[0].token.kind == EndOfStream && e.errors[0].token.kind == EndOfStream
  {
    EndExpected(cfg, [NUL], root);
    EndExpected(cfg, [], root);
  }

  // ---- A number without digits ----

  lemma {:induction false} ZeroIff(s: bytes)
    requires AllDigits(s)
    ensures DecimalValue(s) == 0 <==> forall i | 0 <= i < |s| :: s[i] == ZERO
    decreases |s|
  {
    if s != [] {
      ZeroIff(s[..|s| - 1]);
      assert forall i | 0 <= i < |s| - 1 :: s[..|s| - 1][i] == s[i];
    }
  }

  /** A token is read as the integer 0 exactly if nothing but zeros, or nothing at all, stands behind an optional minus sign. */
  lemma ZeroTokenIff(token: bytes)
    requires token != []
    ensures DecodeInteger(token) == Some(Int(0))
       <==> forall i | (if token[0] == MINUS then 1 else 0) <= i < |token| :: token[i] == ZERO
    ensures DecodeInteger([MINUS]) == Some(Int(0))
  {
    var ds := if token[0] == MINUS then token[1..] else token;
    assert forall i | 0 <= i < |ds| :: ds[i] == token[i + if token[0] == MINUS then 1 else 0];
    if AllDigits(ds) {
      ZeroIff(ds);
    }
    if forall i | (if token[0] == MINUS then 1 else 0) <= i < |token| :: token[i] == ZERO {
      assert AllDigits(ds);
    }
    assert [MINUS][1..] == [];
  }
}
