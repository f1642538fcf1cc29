/**
 Reading what was printed: the text of a value is a text of the grammar, and what it
 denotes there is the value.
 */
module RoundTrip {
  import opened Bytes
  import opened Values
  import opened ValueArray
  import opened Quoting
  import opened Decimal
  import opened JsonText
  import opened JsonGrammar
  import opened GrammarReading
  import Spec = ReaderSpec

  // ---- What is read back ----

  /** The integers with the reader's tags. */
  function Retag(v: Value): Value {
    match v
    case Int(i) => Tagged(i)
    case UInt(u) => Tagged(u)
    case Array(es) => Array(RetagEntries(es))
    case Object(es) => Object(RetagEntries(es))
    case _ => v
  }

  function RetagMember(m: Member): Member {
    Member(m.key, Retag(m.value))
  }

  function RetagEntries(es: seq<Member>): (r: seq<Member>)
    ensures |r| == |es|
  {
    if es == [] then [] else [RetagMember(es[0])] + RetagEntries(es[1..])
  }

  /** A value without doubles, with valid UTF-8 strings and names, and with dense arrays. */
  predicate Sendable(v: Value) {
    match v
    case Int(i) => MIN_INT64 <= i <= MAX_INT64
    case UInt(u) => 0 <= u <= MAX_UINT64
    case Real(_) => false
    case Str(s) => ValidUtf8(s)
    case Array(es) => SendableEntries(es) && Keyed(es, 0)
    case Object(es) => SendableEntries(es) && Sorted(es) && Named(es)
    case _ => true
  }

  predicate SendableMember(m: Member) {
    Sendable(m.value)
  }

  predicate SendableEntries(es: seq<Member>) {
    es != [] ==> SendableMember(es[0]) && SendableEntries(es[1..])
  }

  predicate Named(es: seq<Member>) {
    forall i | 0 <= i < |es| :: es[i].key.Name? && ValidUtf8(es[i].key.name)
  }

  /** Every key of the first list is below every key of the second. */
  predicate Below(done: seq<Member>, es: seq<Member>) {
    forall i, j | 0 <= i < |done| && 0 <= j < |es| :: KeyLess(done[i].key, es[j].key)
  }

  /** A name above all earlier ones goes to the end of the entries. */
  lemma NextName(done: seq<Member>, es: seq<Member>, x: Value, y: Value)
    requires es != [] && Sorted(es) && Named(es) && Below(done, es)
    ensures es[0].key.Name? && ValidUtf8(es[0].key.name)
    ensures Put(done, es[0].key, x) == done + [Member(es[0].key, x)]
    ensures Below(done + [Member(es[0].key, y)], es[1..])
    ensures Sorted(es[1..]) && Named(es[1..])
  {
    PutAppends(done, es[0].key, x);
  }

  // ---- Printed strings ----

  /** The characters of CodePointText. */
  function CodePointChars(cp: nat): seq<Char> {
    if 0x20 <= cp < 0x80 then [Plain(cp)]
    else if cp < 0x10000 then [Hex(ToHex16Bit(cp))]
    else [Hex(ToHex16Bit((cp - 0x10000) / 1024 + 0xD800)), Hex(ToHex16Bit((cp - 0x10000) % 1024 + 0xDC00))]
  }

  function CharsAt(s: bytes, i: nat): seq<Char>
    requires i < |s|
  {
    var short := ShortEscape(s[i]);
    if short.Some? then [Short(short.value)] else CodePointChars(Utf8ToCodepoint(s, i).0)
  }

  function EscapedChars(s: bytes, i: nat): seq<Char>
    requires i <= |s|
    decreases |s| - i
  {
    if i == |s| then [] else CharsAt(s, i) + EscapedChars(s, EscapeAt(s, i).1)
  }

  function PlainChars(s: bytes): seq<Char> {
    if s == [] then [] else [Plain(s[0])] + PlainChars(s[1..])
  }

  function PrintedChars(s: bytes, charIsSigned: bool): seq<Char> {
    if AnyRequiresQuoting(s, charIsSigned) then EscapedChars(s, 0) else PlainChars(s)
  }

  lemma {:induction false} CharsConcat(a: seq<Char>, b: seq<Char>)
    ensures CharsText(a + b) == CharsText(a) + CharsText(b)
    decreases |a|
  {
    hide CharText;
    if a == [] {
      assert a + b == b;
    } else {
      assert (a + b)[1..] == a[1..] + b;
      CharsConcat(a[1..], b);
    }
  }

  lemma HexDigitWritten(d: nat)
    requires d < 16
    ensures HexDigitMeaning(HexDigit(d)) == Some(d)
  {
  }

  lemma HexGood(x: nat)
    ensures GoodChar(Hex(ToHex16Bit(x))) && CharText(Hex(ToHex16Bit(x))) == UnicodeEscape(x)
  {
    HexDigitWritten(x / 256 % 256 / 16);
    HexDigitWritten(x / 256 % 256 % 16);
    HexDigitWritten(x % 256 / 16);
    HexDigitWritten(x % 256 % 16);
  }

  lemma CodePointCharsText(cp: nat)
    requires cp != QUOTE && cp != BACKSLASH
    ensures GoodChars(CodePointChars(cp)) && CharsText(CodePointChars(cp)) == CodePointText(cp)
  {
    hide ToHex16Bit, UnicodeEscape, GoodChar;
    var cs := CodePointChars(cp);
    if 0x20 <= cp < 0x80 {
      PlainGood(cp);
    } else if cp < 0x10000 {
      HexGood(cp);
    } else {
      HexGood((cp - 0x10000) / 1024 + 0xD800);
      HexGood((cp - 0x10000) % 1024 + 0xDC00);
      assert CharsText(cs[1..][1..]) == [];
      assert CharsText(cs[1..]) == CharText(cs[1]);
    }
    assert |cs| == 1 ==> CharsText(cs[1..]) == [];
  }

  lemma PlainGood(c: byte)
    requires c >= SPACE && c != QUOTE && c != BACKSLASH
    ensures GoodChar(Plain(c)) && CharText(Plain(c)) == [c]
  {
  }

  lemma CharsAtText(s: bytes, i: nat)
    requires i < |s|
    ensures GoodChars(CharsAt(s, i)) && CharsText(CharsAt(s, i)) == EscapeAt(s, i).0
  {
    hide CodePointChars, CodePointText;
    var short := ShortEscape(s[i]);
    if short.Some? {
      assert CharsText(CharsAt(s, i)[1..]) == [];
    } else {
      CodePointCharsText(Utf8ToCodepoint(s, i).0);
    }
  }

  lemma {:induction false} EscapedCharsText(s: bytes, i: nat)
    requires i <= |s|
    ensures GoodChars(EscapedChars(s, i)) && CharsText(EscapedChars(s, i)) == Escaped(s, i)
    decreases |s| - i
  {
    hide CharsAt, EscapeAt, GoodChar;
    if i < |s| {
      CharsAtText(s, i);
      EscapedCharsText(s, EscapeAt(s, i).1);
      CharsConcat(CharsAt(s, i), EscapedChars(s, EscapeAt(s, i).1));
    }
  }

  lemma {:induction false} PlainCharsText(s: bytes)
    requires forall i | 0 <= i < |s| :: s[i] >= SPACE && s[i] != QUOTE && s[i] != BACKSLASH
    ensures GoodChars(PlainChars(s)) && CharsText(PlainChars(s)) == s
    decreases |s|
  {
    if s != [] {
      PlainCharsText(s[1..]);
      assert s == [s[0]] + s[1..];
    }
  }

  /** A quoted string is a string of the grammar, and means the string that was quoted. */
  lemma PrintedString(s: bytes, charIsSigned: bool)
    requires ValidUtf8(s)
    ensures var cs := PrintedChars(s, charIsSigned);
            && GoodChars(cs) && StringLiteral(cs) == Quoted(s, charIsSigned)
            && Paired(cs) && Meaning(cs) == s
  {
    hide Decode, ValidUtf8, Escaped, EscapedChars, CharsText, Paired, Meaning, PlainChars, GoodChars;
    var cs := PrintedChars(s, charIsSigned);
    if AnyRequiresQuoting(s, charIsSigned) {
      EscapedCharsText(s, 0);
    } else {
      PlainCharsText(s);
    }
    var doc := StringLiteral(cs);
    assert CharsText(cs) == Body(s, charIsSigned) && doc == Quoted(s, charIsSigned);
    assert Holds(doc, 0, doc) && Holds(doc, 1, CharsText(cs));
    StringRoundTrip(doc, 0, s, charIsSigned);
    GoodSpelled(cs);
    DecodeChars(doc, 1, |doc| - 1, cs);
  }

  // ---- Printed numbers ----

  function PrintedNumber(i: int): Numeral {
    Numeral(i < 0, Digits(if i < 0 then -i else i), [], [])
  }

  /** A printed number has no leading zero. */
  lemma {:induction false} NoLeadingZero(n: nat)
    ensures IsWhole(Digits(n)) && (Digits(n)[0] == ZERO ==> n == 0)
  {
    if n >= 10 {
      NoLeadingZero(n / 10);
    }
  }

  lemma PrintedInteger(toDouble: bytes -> Option<nat>, i: int)
    requires MIN_INT64 <= i <= MAX_UINT64
    ensures GoodNumber(PrintedNumber(i)) && NumberText(PrintedNumber(i)) == IntText(i)
    ensures NumberMeaning(toDouble, PrintedNumber(i)) == Some(Tagged(i))
  {
    hide Digits;
    var n := if i < 0 then -i else i;
    NoLeadingZero(n);
    DigitsValue(n);
    assert [] + (Digits(n) + ([] + [])) == Digits(n);
  }

  // ---- Printed values ----

  /** The tree of a printed value. */
  function Printed(tc: TextConfig, v: Value): Json {
    match v
    case Null => JNull
    case Int(i) => JNumber(PrintedNumber(i))
    case UInt(u) => JNumber(PrintedNumber(u))
    case Real(_) => JNull
    case Str(s) => JString(PrintedChars(s, tc.charIsSigned))
    case Bool(b) => if b then JTrue else JFalse
    case Array(es) => JArray(PrintedItems(tc, es))
    case Object(es) => JObject(PrintedFields(tc, es))
  }

  function PrintedMember(tc: TextConfig, m: Member): Json {
    Printed(tc, m.value)
  }

  function PrintedItems(tc: TextConfig, es: seq<Member>): (items: seq<Json>)
    ensures |items| == |es|
  {
    if es == [] then [] else [PrintedMember(tc, es[0])] + PrintedItems(tc, es[1..])
  }

  function PrintedFields(tc: TextConfig, es: seq<Member>): (fields: seq<Field>)
    ensures |fields| == |es|
  {
    if es == [] then []
    else
      var name := if es[0].key.Name? then PrintedChars(es[0].key.name, tc.charIsSigned) else [];
      [Field(name, PrintedMember(tc, es[0]))] + PrintedFields(tc, es[1..])
  }

  /** The tree is grammatical and readable, has the lexemes that are printed, and denotes the value. */
  ghost predicate TreeOf(toDouble: bytes -> Option<nat>, tc: TextConfig, j: Json, v: Value) {
    && Grammatical(j) && Readable(toDouble, j)
    && Tokens(j) == LexemesOf(tc, v) && Denote(toDouble, j) == Retag(v) && Nesting(j) == Levels(v)
  }

  lemma {:induction false} PrintedTree(toDouble: bytes -> Option<nat>, tc: TextConfig, v: Value)
    requires Sendable(v) && tc.nullText == NULL_TEXT
    ensures TreeOf(toDouble, tc, Printed(tc, v), v)
    decreases v
  {
    hide PrintedChars, PrintedNumber, NumberText, IntText, NumberMeaning, GoodNumber, GoodChars, Paired, Meaning, Quoted, StringLiteral;
    hide ValidUtf8, Tagged, Sorted;
    match v
    case Int(i) => PrintedInteger(toDouble, i);
    case UInt(u) => PrintedInteger(toDouble, u);
    case Str(s) => PrintedString(s, tc.charIsSigned);
    case Array(es) => PrintedElements(toDouble, tc, es, 0);
    case Object(es) =>
      PrintedMembers(toDouble, tc, es, []);
      assert [] + RetagEntries(es) == RetagEntries(es);
    case _ =>
  }

  lemma PrintedMemberTree(toDouble: bytes -> Option<nat>, tc: TextConfig, m: Member)
    requires SendableMember(m) && tc.nullText == NULL_TEXT
    ensures TreeOf(toDouble, tc, PrintedMember(tc, m), m.value)
    ensures ValueLexemes(tc, m) == Tokens(PrintedMember(tc, m)) && MemberLevels(m) == Nesting(PrintedMember(tc, m))
    ensures RetagMember(m) == Member(m.key, Denote(toDouble, PrintedMember(tc, m)))
    decreases m
  {
    hide Tokens, Denote, Grammatical, Readable, Nesting, LexemesOf, Retag, Levels, Sendable;
    PrintedTree(toDouble, tc, m.value);
  }

  lemma {:induction false} PrintedElements(toDouble: bytes -> Option<nat>, tc: TextConfig, es: seq<Member>, first: nat)
    requires SendableEntries(es) && Keyed(es, first) && tc.nullText == NULL_TEXT
    ensures var items := PrintedItems(tc, es);
            && GrammaticalItems(items) && ReadableItems(toDouble, items)
            && ItemTokens(items) == ElementLexemes(tc, es)
            && DenoteItems(toDouble, items, first) == RetagEntries(es)
            && ItemsNesting(items) == EntriesLevels(es)
    decreases es
  {
    hide Tokens, Denote, Grammatical, Readable, Nesting, PrintedMember, ValueLexemes, MemberLevels, RetagMember, SendableMember;
    if es != [] {
      PrintedMemberTree(toDouble, tc, es[0]);
      PrintedElements(toDouble, tc, es[1..], first + 1);
      var items := PrintedItems(tc, es);
      assert items[0] == PrintedMember(tc, es[0]) && items[1..] == PrintedItems(tc, es[1..]);
    }
  }

  lemma {:induction false} PrintedMembers(toDouble: bytes -> Option<nat>, tc: TextConfig, es: seq<Member>, done: seq<Member>)
    requires SendableEntries(es) && Sorted(es) && Named(es) && Below(done, es) && tc.nullText == NULL_TEXT
    ensures var fields := PrintedFields(tc, es);
            && GrammaticalFields(fields) && ReadableFields(toDouble, fields)
            && FieldTokens(fields) == MemberLexemes(tc, es)
            && DenoteFields(toDouble, fields, done) == done + RetagEntries(es)
            && FieldsNesting(fields) == EntriesLevels(es)
    decreases es
  {
    hide Tokens, Denote, Grammatical, Readable, Nesting, PrintedMember, ValueLexemes, MemberLevels, RetagMember, SendableMember;
    hide Sorted, Named, Below, Put, GoodChars, Paired, Meaning, PrintedChars, Quoted, StringLiteral, ValidUtf8;
    if es != [] {
      PrintedMemberTree(toDouble, tc, es[0]);
      var x := Denote(toDouble, PrintedMember(tc, es[0]));
      NextName(done, es, x, x);
      PrintedString(es[0].key.name, tc.charIsSigned);
      var done' := done + [RetagMember(es[0])];
      PrintedMembers(toDouble, tc, es[1..], done');
      var fields := PrintedFields(tc, es);
      assert fields[0] == Field(PrintedChars(es[0].key.name, tc.charIsSigned), PrintedMember(tc, es[0]));
      assert fields[1..] == PrintedFields(tc, es[1..]);
      assert done' + RetagEntries(es[1..]) == done + ([RetagMember(es[0])] + RetagEntries(es[1..]));
    }
  }

  lemma {:induction false} PrintedNames(tc: TextConfig, es: seq<Member>, i: nat)
    requires i < |es| && es[i].key.Name?
    ensures PrintedFields(tc, es)[i].name == PrintedChars(es[i].key.name, tc.charIsSigned)
    decreases i
  {
    if i > 0 {
      PrintedNames(tc, es[1..], i - 1);
    }
  }

  /** The members of an object are printed in the order of the bytes of their names. */
  lemma MembersInOrder(tc: TextConfig, es: seq<Member>, i: nat, j: nat)
    requires Sendable(Object(es)) && i < j < |es|
    ensures var fields := PrintedFields(tc, es);
            && es[i].key.Name? && es[j].key.Name?
            && Meaning(fields[i].name) == es[i].key.name && Meaning(fields[j].name) == es[j].key.name
            && exists k: nat :: BelowAt(Meaning(fields[i].name), Meaning(fields[j].name), k)
  {
    hide PrintedChars, Meaning, Paired, GoodChars, BytesLess, ValidUtf8, StringLiteral, Quoted;
    PrintedNames(tc, es, i);
    PrintedNames(tc, es, j);
    PrintedString(es[i].key.name, tc.charIsSigned);
    PrintedString(es[j].key.name, tc.charIsSigned);
    BytesLessIff(es[i].key.name, es[j].key.name);
  }

  /** Reading a value's lexemes, wherever they stand and whatever whitespace separates them, gives the value. */
  lemma ReadLexemes(cfg: Spec.Config, tc: TextConfig, doc: bytes, pos: nat, ps: seq<Piece>, v: Value, rest: seq<bytes>, cur: Value)
    returns (qs: seq<Piece>)
    requires Sees(doc, pos, ps) && Sendable(v) && tc.nullText == NULL_TEXT
    requires Lexemes(ps) == LexemesOf(tc, v) + rest && EndsValue(rest)
    ensures Reads(Spec.ReadValue(cfg, doc, pos, cur), doc, Retag(v), Levels(v), qs, rest)
  {
    hide Spec.ReadValue, Sees, Lexemes, Tokens, Denote, Grammatical, Readable, Nesting, LexemesOf, Retag, Levels, Printed, Sendable;
    PrintedTree(cfg.toDouble, tc, v);
    qs := ReadTree(cfg, doc, pos, ps, Printed(tc, v), rest, cur);
  }
}
