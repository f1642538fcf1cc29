/**
 The texts the reader takes: derivation trees over the tokens of a text, with everything
 in them that RFC 8259 does not allow. Comments stand almost anywhere, numbers have looser
 texts, strings may hold control characters, behind a comment any token passes for a comma,
 and behind a member with an empty name an object may end after its comma.
 */
module LooseGrammar {
  import opened Bytes
  import opened Values
  import opened Decimal
  import opened Lexer
  import opened JsonGrammar

  /** The features: comments before values, values left out, and what becomes of numbers that are no integers. */
  datatype Leniency = Leniency(comments: bool, dropped: bool, toDouble: bytes -> Option<nat>)

  /** A value behind its comments. */
  datatype LValue = LValue(comments: seq<Token>, body: Loose)

  datatype Loose =
    | LLiteral(t: Token)
    | LNumber(t: Token)
    | LString(t: Token, chars: seq<Char>)
    | LDropped(next: Token)
    | LEmptyArray(open: Token, close: Token)
    | LArray(open: Token, items: seq<LItem>)
    | LObject(open: Token, members: seq<LMember>, ending: Ending)

  /** An element, and the comments and the comma or bracket behind it. */
  datatype LItem = LItem(value: LValue, comments: seq<Token>, sep: Token)

  /** A name and its value, and the comments and the token that stand for the comma or the brace. */
  datatype LMember = LMember(before: seq<Token>, name: Token, chars: seq<Char>, colon: Token, value: LValue, behind: seq<Token>, sep: Token)

  /** The brace is the last member's own separator, or stands where another name could. */
  datatype Ending = AtSeparator | AtBrace(comments: seq<Token>, close: Token)

  // ---- Tokens of a text ----

  /** The token read from here on. */
  predicate Stands(doc: bytes, i: nat, t: Token) {
    i <= |doc| && ReadToken(doc, i) == t
  }

  predicate StandsAs(doc: bytes, i: nat, t: Token, kind: TokenType) {
    Stands(doc, i, t) && t.kind == kind
  }

  predicate Comments(doc: bytes, i: nat, cs: seq<Token>)
    decreases |cs|
  {
    cs != [] ==> StandsAs(doc, i, cs[0], Comment) && Comments(doc, cs[0].end, cs[1..])
  }

  function Behind(i: nat, cs: seq<Token>): nat {
    if cs == [] then i else cs[|cs| - 1].end
  }

  /** The token behind these comments is none itself. */
  predicate StandsBehind(doc: bytes, i: nat, cs: seq<Token>, t: Token) {
    Comments(doc, i, cs) && Stands(doc, Behind(i, cs), t) && t.kind != Comment
  }

  function TokenText(doc: bytes, t: Token): bytes {
    if t.start <= t.end <= |doc| then doc[t.start..t.end] else []
  }

  // ---- Scalars ----

  /** Any digits behind an optional minus sign are an integer if that has 64 bits; any other text goes to toDouble. */
  function LooseNumber(toDouble: bytes -> Option<nat>, text: bytes): Option<Value> {
    var negative := text != [] && text[0] == 45;
    var ds := if negative then text[1..] else text;
    var number := if !AllDigits(ds) then 0 else if negative then 0 - DecimalValue(ds) else DecimalValue(ds);
    if AllDigits(ds) && MIN_INT64 <= number <= MAX_UINT64 then Some(Tagged(number))
    else
      var d := toDouble(text);
      if d.Some? then Some(Real(d.value)) else None
  }

  /** The token spells these characters between quotes. */
  predicate SpelledBy(doc: bytes, t: Token, cs: seq<Char>) {
    t.kind == String && TokenText(doc, t) == StringLiteral(cs) && AllSpelled(cs) && Paired(cs)
  }

  // ---- Derivations ----

  predicate Derives(l: Leniency, doc: bytes, i: nat, v: LValue)
    decreases v
  {
    Comments(doc, i, v.comments) && (v.comments != [] ==> l.comments) && DerivesBody(l, doc, Behind(i, v.comments), v.body)
  }

  predicate DerivesBody(l: Leniency, doc: bytes, i: nat, b: Loose)
    decreases b
  {
    match b
    case LLiteral(t) => Stands(doc, i, t) && t.kind in {True, False, NullToken}
    case LNumber(t) => StandsAs(doc, i, t, Number) && LooseNumber(l.toDouble, TokenText(doc, t)).Some?
    case LString(t, cs) => Stands(doc, i, t) && SpelledBy(doc, t, cs)
    case LDropped(t) => l.dropped && Stands(doc, i, t) && t.kind in {ArraySeparator, ObjectEnd, ArrayEnd}
    case LEmptyArray(open, close) => StandsAs(doc, i, open, ArrayBegin) && StandsAs(doc, open.end, close, ArrayEnd)
    case LArray(open, items) =>
      && StandsAs(doc, i, open, ArrayBegin)
      && ReadToken(doc, open.end).kind != ArrayEnd
      && DerivesItems(l, doc, SkipSpaces(doc, open.end), items)
    case LObject(open, members, ending) =>
      StandsAs(doc, i, open, ObjectBegin) && DerivesMembers(l, doc, open.end, [], members, ending)
  }

  /** Elements with a comma behind each but the last, and a bracket behind that. */
  predicate DerivesItems(l: Leniency, doc: bytes, i: nat, items: seq<LItem>)
    decreases items
  {
    && items != []
    && DerivesItem(l, doc, i, items[0])
    && if |items| == 1 then items[0].sep.kind == ArrayEnd
       else items[0].sep.kind == ArraySeparator && DerivesItems(l, doc, items[0].sep.end, items[1..])
  }

  predicate DerivesItem(l: Leniency, doc: bytes, i: nat, item: LItem)
    decreases item
  {
    Derives(l, doc, i, item.value) && StandsBehind(doc, EndOf(item.value.body), item.comments, item.sep)
  }

  /** The members behind one of this name; without comments only a comma leads on. */
  predicate DerivesMembers(l: Leniency, doc: bytes, i: nat, name: bytes, members: seq<LMember>, ending: Ending)
    decreases members
  {
    if members == [] then
      name == [] && ending.AtBrace? && StandsBehind(doc, i, ending.comments, ending.close) && ending.close.kind == ObjectEnd
    else
      && DerivesMember(l, doc, i, members[0])
      && if members[0].sep.kind == ObjectEnd then |members| == 1 && ending.AtSeparator?
         else DerivesMembers(l, doc, members[0].sep.end, Meaning(members[0].chars), members[1..], ending)
  }

  predicate DerivesMember(l: Leniency, doc: bytes, i: nat, m: LMember)
    decreases m
  {
    && StandsBehind(doc, i, m.before, m.name) && SpelledBy(doc, m.name, m.chars)
    && StandsAs(doc, m.name.end, m.colon, MemberSeparator)
    && Derives(l, doc, m.colon.end, m.value)
    && StandsBehind(doc, EndOf(m.value.body), m.behind, m.sep)
    && (m.behind == [] ==> m.sep.kind in {ArraySeparator, ObjectEnd})
  }

  /** Where the text of a derivation ends; a value left out ends in front of the token behind it. */
  function EndOf(b: Loose): nat {
    match b
    case LLiteral(t) => t.end
    case LNumber(t) => t.end
    case LString(t, _) => t.end
    case LDropped(next) => next.start
    case LEmptyArray(_, close) => close.end
    case LArray(open, items) => if items == [] then open.end else items[|items| - 1].sep.end
    case LObject(open, members, ending) => EndOfMembers(open.end, members, ending)
  }

  function EndOfMembers(i: nat, members: seq<LMember>, ending: Ending): nat {
    match ending
    case AtBrace(_, close) => close.end
    case AtSeparator => if members == [] then i else members[|members| - 1].sep.end
  }

  // ---- Meaning ----

  function LooseMeaning(l: Leniency, doc: bytes, b: Loose): Value
    decreases b
  {
    match b
    case LLiteral(t) => if t.kind == True then Bool(true) else if t.kind == False then Bool(false) else Null
    case LNumber(t) =>
      var v := LooseNumber(l.toDouble, TokenText(doc, t));
      if v.Some? then v.value else Null
    case LString(_, cs) => Str(Meaning(cs))
    case LDropped(_) => Null
    case LEmptyArray(_, _) => Array([])
    case LArray(_, items) => Array(LooseItems(l, doc, items, 0))
    case LObject(_, members, _) => Object(LooseMembers(l, doc, members, []))
  }

  function ItemMeaning(l: Leniency, doc: bytes, item: LItem): Value
    decreases item
  {
    LooseMeaning(l, doc, item.value.body)
  }

  function LooseItems(l: Leniency, doc: bytes, items: seq<LItem>, first: nat): seq<Member>
    decreases items
  {
    if items == [] then []
    else [Member(Index(first), ItemMeaning(l, doc, items[0]))] + LooseItems(l, doc, items[1..], first + 1)
  }

  function MemberMeaning(l: Leniency, doc: bytes, m: LMember): Value
    decreases m
  {
    LooseMeaning(l, doc, m.value.body)
  }

  function LooseMembers(l: Leniency, doc: bytes, members: seq<LMember>, done: seq<Member>): seq<Member>
    decreases members
  {
    if members == [] then done
    else
      var x := MemberMeaning(l, doc, members[0]);
      LooseMembers(l, doc, members[1..], Put(done, Name(Meaning(members[0].chars)), x))
  }
}
