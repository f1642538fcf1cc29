/**
 The grammar of RFC 8259 as derivation trees: what may stand in them, the lexemes a
 tree stands for, and the value it denotes.
 */
module JsonGrammar {
  import opened Bytes
  import opened Values
  import opened Quoting
  import opened Decimal

  // ---- Strings (section 7) ----

  /** A character as it is, the letter of a two-character escape, or the four digits of a \u escape. */
  datatype Char = Plain(c: byte) | Short(letter: byte) | Hex(digits: bytes)

  /** The character an escape letter stands for: `"`, `\`, `/`, backspace, form feed, line feed, carriage return, tab. */
  function EscapeMeaning(letter: byte): Option<byte> {
    match letter
    case 34 => Some(34)
    case 92 => Some(92)
    case 47 => Some(47)
    case 98 => Some(8)
    case 102 => Some(12)
    case 110 => Some(10)
    case 114 => Some(13)
    case 116 => Some(9)
    case _ => None
  }

  /** The digits 0 to 9, A to F and a to f. */
  function HexDigitMeaning(c: byte): Option<nat> {
    if 48 <= c <= 57 then Some(c - 48)
    else if 65 <= c <= 70 then Some(c - 55)
    else if 97 <= c <= 102 then Some(c - 87)
    else None
  }

  /** What can be spelled between quotes at all, control characters included. */
  predicate Spelled(c: Char) {
    match c
    case Plain(b) => b != 34 && b != 92
    case Short(l) => EscapeMeaning(l).Some?
    case Hex(ds) => |ds| == 4 && forall i | 0 <= i < 4 :: HexDigitMeaning(ds[i]).Some?
  }

  predicate AllSpelled(cs: seq<Char>) {
    forall i | 0 <= i < |cs| :: Spelled(cs[i])
  }

  /** Bytes from 0x80 on are allowed without regard to UTF-8. */
  predicate GoodChar(c: Char) {
    Spelled(c) && (c.Plain? ==> c.c >= 32)
  }

  predicate GoodChars(cs: seq<Char>) {
    forall i | 0 <= i < |cs| :: GoodChar(cs[i])
  }

  function CharText(c: Char): bytes {
    match c
    case Plain(b) => [b]
    case Short(l) => [92, l]
    case Hex(ds) => [92, 117] + ds
  }

  function CharsText(cs: seq<Char>): bytes {
    if cs == [] then [] else CharText(cs[0]) + CharsText(cs[1..])
  }

  function StringLiteral(cs: seq<Char>): bytes {
    [34] + (CharsText(cs) + [34])
  }

  function DigitOf(c: byte): nat {
    if HexDigitMeaning(c).Some? then HexDigitMeaning(c).value else 0
  }

  function HexCode(ds: bytes): nat {
    if |ds| != 4 then 0
    else DigitOf(ds[0]) * 4096 + DigitOf(ds[1]) * 256 + DigitOf(ds[2]) * 16 + DigitOf(ds[3])
  }

  /** The encoding form of section 3 of RFC 3629, for surrogates as well. */
  function Utf8(cp: nat): bytes
    requires cp < 0x11_0000
  {
    if cp < 128 then [cp]
    else if cp < 2048 then [192 + cp / 64, 128 + cp % 64]
    else if cp < 65536 then [224 + cp / 4096, 128 + cp / 64 % 64, 128 + cp % 64]
    else [240 + cp / 262144, 128 + cp / 4096 % 64, 128 + cp / 64 % 64, 128 + cp % 64]
  }

  predicate IsHigh(c: Char) {
    c.Hex? && 0xD800 <= HexCode(c.digits) <= 0xDBFF
  }

  /** The character of a surrogate pair; of a second half out of its range only the low ten bits count. */
  function PairCode(high: nat, low: nat): (r: nat)
    requires 0xD800 <= high <= 0xDBFF
    ensures r < 0x11_0000
  {
    0x10000 + (high - 0xD800) * 1024 + low % 1024
  }

  lemma HexCodeBound(ds: bytes)
    ensures HexCode(ds) < 65536
  {
  }

  function CharMeaning(c: Char): bytes {
    match c
    case Plain(b) => [b]
    case Short(l) => if EscapeMeaning(l).Some? then [EscapeMeaning(l).value] else []
    case Hex(ds) => HexCodeBound(ds); Utf8(HexCode(ds))
  }

  /** The string in UTF-8: a high surrogate escape is joined with the \u escape behind it. */
  function Meaning(cs: seq<Char>): bytes {
    if cs == [] then []
    else if IsHigh(cs[0]) && |cs| > 1 && cs[1].Hex? then
      Utf8(PairCode(HexCode(cs[0].digits), HexCode(cs[1].digits))) + Meaning(cs[2..])
    else CharMeaning(cs[0]) + Meaning(cs[1..])
  }

  /** Behind each high surrogate escape stands another \u escape. */
  predicate Paired(cs: seq<Char>) {
    if cs == [] then true
    else if IsHigh(cs[0]) then |cs| > 1 && cs[1].Hex? && Paired(cs[2..])
    else Paired(cs[1..])
  }

  // ---- Numbers (section 6) ----

  /** A fraction begins with its point, and an exponent with its letter. */
  datatype Numeral = Numeral(negative: bool, whole: bytes, fraction: bytes, exponent: bytes)

  predicate SomeDigits(s: bytes) {
    s != [] && AllDigits(s)
  }

  predicate IsWhole(s: bytes) {
    SomeDigits(s) && (s[0] == ZERO ==> |s| == 1)
  }

  predicate IsFraction(s: bytes) {
    s != [] ==> s[0] == DOT && SomeDigits(s[1..])
  }

  predicate IsExponent(s: bytes) {
    s != [] ==>
      && (s[0] == 101 || s[0] == 69) && |s| > 1
      && SomeDigits(if s[1] == PLUS || s[1] == MINUS then s[2..] else s[1..])
  }

  predicate GoodNumber(n: Numeral) {
    IsWhole(n.whole) && IsFraction(n.fraction) && IsExponent(n.exponent)
  }

  function Sign(n: Numeral): bytes {
    if n.negative then [MINUS] else []
  }

  function NumberText(n: Numeral): bytes {
    Sign(n) + (n.whole + (n.fraction + n.exponent))
  }

  /** The number in front of the fraction. */
  function WholeNumber(n: Numeral): int {
    if !AllDigits(n.whole) then 0 else if n.negative then 0 - DecimalValue(n.whole) else DecimalValue(n.whole)
  }

  /** The reader's choice of integer type: intValue up to 2^31 - 1, uintValue above. */
  function Tagged(i: int): Value {
    if i <= MAX_INT32 then Int(i) else UInt(i)
  }

  predicate IsInteger(n: Numeral) {
    n.fraction == [] && n.exponent == [] && MIN_INT64 <= WholeNumber(n) <= MAX_UINT64
  }

  /** An integer of 64 bits is itself; any other number is what toDouble makes of its text, if it can. */
  function NumberMeaning(toDouble: bytes -> Option<nat>, n: Numeral): Option<Value> {
    if IsInteger(n) then Some(Tagged(WholeNumber(n)))
    else
      var d := toDouble(NumberText(n));
      if d.Some? then Some(Real(d.value)) else None
  }

  // ---- Values (sections 3 to 5) ----

  datatype Field = Field(name: seq<Char>, value: Json)

  datatype Json =
    | JNull
    | JTrue
    | JFalse
    | JNumber(number: Numeral)
    | JString(chars: seq<Char>)
    | JArray(items: seq<Json>)
    | JObject(fields: seq<Field>)

  predicate Grammatical(j: Json) {
    match j
    case JNumber(n) => GoodNumber(n)
    case JString(cs) => GoodChars(cs)
    case JArray(items) => GrammaticalItems(items)
    case JObject(fields) => GrammaticalFields(fields)
    case _ => true
  }

  predicate GrammaticalItems(items: seq<Json>) {
    items != [] ==> Grammatical(items[0]) && GrammaticalItems(items[1..])
  }

  predicate GrammaticalField(f: Field) {
    GoodChars(f.name) && Grammatical(f.value)
  }

  predicate GrammaticalFields(fields: seq<Field>) {
    fields != [] ==> GrammaticalField(fields[0]) && GrammaticalFields(fields[1..])
  }

  // ---- Lexemes ----

  function Tokens(j: Json): seq<bytes> {
    match j
    case JNull => [NULL_TEXT]
    case JTrue => [TRUE_TEXT]
    case JFalse => [FALSE_TEXT]
    case JNumber(n) => [NumberText(n)]
    case JString(cs) => [StringLiteral(cs)]
    case JArray(items) => [[LBRACKET]] + ItemTokens(items) + [[RBRACKET]]
    case JObject(fields) => [[LBRACE]] + FieldTokens(fields) + [[RBRACE]]
  }

  function ItemTokens(items: seq<Json>): seq<bytes> {
    if items == [] then []
    else if |items| == 1 then Tokens(items[0])
    else Tokens(items[0]) + ([[COMMA]] + ItemTokens(items[1..]))
  }

  function OneFieldTokens(f: Field): seq<bytes> {
    [StringLiteral(f.name), [COLON]] + Tokens(f.value)
  }

  function FieldTokens(fields: seq<Field>): seq<bytes> {
    if fields == [] then []
    else if |fields| == 1 then OneFieldTokens(fields[0])
    else OneFieldTokens(fields[0]) + ([[COMMA]] + FieldTokens(fields[1..]))
  }

  // ---- Meaning ----

  /** The number converts, or is an integer; and the surrogate escapes of the strings are paired. */
  predicate Readable(toDouble: bytes -> Option<nat>, j: Json) {
    match j
    case JNumber(n) => NumberMeaning(toDouble, n).Some?
    case JString(cs) => Paired(cs)
    case JArray(items) => ReadableItems(toDouble, items)
    case JObject(fields) => ReadableFields(toDouble, fields)
    case _ => true
  }

  predicate ReadableItems(toDouble: bytes -> Option<nat>, items: seq<Json>) {
    items != [] ==> Readable(toDouble, items[0]) && ReadableItems(toDouble, items[1..])
  }

  predicate ReadableField(toDouble: bytes -> Option<nat>, f: Field) {
    Paired(f.name) && Readable(toDouble, f.value)
  }

  predicate ReadableFields(toDouble: bytes -> Option<nat>, fields: seq<Field>) {
    fields != [] ==> ReadableField(toDouble, fields[0]) && ReadableFields(toDouble, fields[1..])
  }

  /** The value; of members with one name the last one counts. */
  function Denote(toDouble: bytes -> Option<nat>, j: Json): Value {
    match j
    case JNull => Null
    case JTrue => Bool(true)
    case JFalse => Bool(false)
    case JNumber(n) => if NumberMeaning(toDouble, n).Some? then NumberMeaning(toDouble, n).value else Null
    case JString(cs) => Str(Meaning(cs))
    case JArray(items) => Array(DenoteItems(toDouble, items, 0))
    case JObject(fields) => Object(DenoteFields(toDouble, fields, []))
  }

  function DenoteItems(toDouble: bytes -> Option<nat>, items: seq<Json>, first: nat): seq<Member> {
    if items == [] then []
    else [Member(Index(first), Denote(toDouble, items[0]))] + DenoteItems(toDouble, items[1..], first + 1)
  }

  function DenoteField(toDouble: bytes -> Option<nat>, f: Field): Value {
    Denote(toDouble, f.value)
  }

  function DenoteFields(toDouble: bytes -> Option<nat>, fields: seq<Field>, done: seq<Member>): seq<Member> {
    if fields == [] then done
    else DenoteFields(toDouble, fields[1..], Put(done, Name(Meaning(fields[0].name)), DenoteField(toDouble, fields[0])))
  }

  /** The levels of nesting, one for a scalar. */
  function Nesting(j: Json): nat {
    match j
    case JArray(items) => 1 + ItemsNesting(items)
    case JObject(fields) => 1 + FieldsNesting(fields)
    case _ => 1
  }

  function ItemsNesting(items: seq<Json>): nat {
    if items == [] then 0 else Max(Nesting(items[0]), ItemsNesting(items[1..]))
  }

  function FieldNesting(f: Field): nat {
    Nesting(f.value)
  }

  function FieldsNesting(fields: seq<Field>): nat {
    if fields == [] then 0 else Max(FieldNesting(fields[0]), FieldsNesting(fields[1..]))
  }

  // ---- The tokens of a tree, from the first on ----

  lemma ItemTokensSplit(items: seq<Json>, end: seq<bytes>)
    requires items != []
    ensures ItemTokens(items) + end
         == Tokens(items[0]) + (if |items| == 1 then end else [[COMMA]] + (ItemTokens(items[1..]) + end))
  {
  }

  lemma FieldTokensSplit(fields: seq<Field>, end: seq<bytes>)
    requires fields != []
    ensures FieldTokens(fields) + end
         == [StringLiteral(fields[0].name), [COLON]]
            + (Tokens(fields[0].value) + (if |fields| == 1 then end else [[COMMA]] + (FieldTokens(fields[1..]) + end)))
  {
    hide StringLiteral, Tokens;
    var name, value, others := [StringLiteral(fields[0].name), [COLON]], Tokens(fields[0].value), FieldTokens(fields[1..]);
    if |fields| == 1 {
      assert name + value + end == name + (value + end);
    } else {
      Regroup(name, value, [[COMMA]], others, end);
    }
  }

  lemma Regroup(a: seq<bytes>, b: seq<bytes>, c: seq<bytes>, d: seq<bytes>, e: seq<bytes>)
    ensures a + b + (c + d) + e == a + (b + (c + (d + e)))
  {
    assert c + d + e == c + (d + e);
    assert a + b + (c + d) + e == a + (b + (c + d + e));
  }
}
