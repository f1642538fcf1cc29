/**
 What Json::Reader computes, as pure functions of the text, a position and the
 value being overwritten. The class in Reader.dfy is proved to compute these.
 */
module ReaderSpec {
  import opened Bytes
  import opened Values
  import opened Quoting
  import opened Decimal
  import opened Lexer

  /** The features a reader is built with, and what decodeDouble makes of a token (a double's bits, or failure). */
  datatype Config = Config(
    allowComments: bool,
    strictRoot: bool,
    allowDroppedNullPlaceholders: bool,
    toDouble: bytes -> Option<nat>)

  datatype Message =
    | ValueExpected
    | NotANumber
    | InString(cause: StringError)
    | MissingColon
    | MissingCommaInObject
    | MissingMemberName
    | MissingCommaInArray
    | RootNotContainer

  datatype ErrorInfo = ErrorInfo(token: Token, message: Message, extra: Option<nat>)

  /**
   The result of reading: success, the value left behind, the position reached,
   the errors added, and how many levels of the node stack were needed.
   */
  datatype Outcome = Outcome(ok: bool, value: Value, end: nat, errors: seq<ErrorInfo>, depth: nat)

  /** One turn of the loop of readObject or readArray. */
  datatype Step = Done(outcome: Outcome) | Continue(value: Value, end: nat, depth: nat)

  datatype NameStep = NoName(outcome: Outcome) | NameRead(name: bytes, end: nat)

  ghost predicate Sound(r: Outcome, doc: bytes, i: nat) {
    && i <= r.end <= |doc|
    && (r.ok <==> r.errors == [])
    && |r.errors| <= 1
  }

  ghost predicate SoundStep(s: Step, doc: bytes, i: nat) {
    match s
    case Done(r) => Sound(r, doc, i)
    case Continue(_, end, _) => i < end <= |doc|
  }

  function Failed(value: Value, end: nat, error: ErrorInfo, depth: nat): Outcome {
    Outcome(false, value, end, [error], depth)
  }

  /** skipCommentTokens. */
  function FirstToken(cfg: Config, doc: bytes, i: nat): Token
    requires i <= |doc|
  {
    if cfg.allowComments then SkipComments(doc, i) else ReadToken(doc, i)
  }

  function Text(doc: bytes, t: Token): bytes
    requires t.start <= t.end <= |doc|
  {
    doc[t.start..t.end]
  }

  /** decodeNumber with its fallback to decodeDouble. */
  function NumberValue(cfg: Config, text: bytes): Option<Value>
    requires text != []
  {
    var v := DecodeInteger(text);
    if v.Some? then v
    else
      var d := cfg.toDouble(text);
      if d.Some? then Some(Real(d.value)) else None
  }

  function StringText(doc: bytes, t: Token): Decoding
    requires t.start + 2 <= t.end <= |doc|
  {
    Decode(doc, t.start + 1, t.end - 1)
  }

  function ReadScalar(cfg: Config, doc: bytes, t: Token, cur: Value): (r: Outcome)
    requires t.start <= t.end <= |doc| && (t.kind == Number ==> t.start < t.end)
    requires t.kind == String ==> t.start + 2 <= t.end
    requires cfg.allowDroppedNullPlaceholders && t.kind in {ArraySeparator, ObjectEnd, ArrayEnd} ==> t.start < t.end
    ensures Sound(r, doc, t.start) && r.depth == 1
  {
    match t.kind
    case Number =>
      var v := NumberValue(cfg, Text(doc, t));
      if v.Some? then Outcome(true, v.value, t.end, [], 1)
      else Failed(cur, t.end, ErrorInfo(t, NotANumber, None), 1)
    case String =>
      var s := StringText(doc, t);
      if s.Decoded? then Outcome(true, Str(s.text), t.end, [], 1)
      else Failed(cur, t.end, ErrorInfo(t, InString(s.error), Some(s.extra)), 1)
    case True => Outcome(true, Bool(true), t.end, [], 1)
    case False => Outcome(true, Bool(false), t.end, [], 1)
    case NullToken => Outcome(true, Null, t.end, [], 1)
    case _ =>
      if cfg.allowDroppedNullPlaceholders && t.kind in {ArraySeparator, ObjectEnd, ArrayEnd}
      then Outcome(true, Null, t.end - 1, [], 1)
      else Failed(cur, t.end, ErrorInfo(t, ValueExpected, None), 1)
  }

  function Deeper(r: Outcome): Outcome {
    r.(depth := r.depth + 1)
  }

  function ReadValue(cfg: Config, doc: bytes, i: nat, cur: Value): (r: Outcome)
    requires i <= |doc|
    ensures Sound(r, doc, i)
    decreases |doc| - i, 0
  {
    var t := FirstToken(cfg, doc, i);
    if t.kind == ObjectBegin then Deeper(ReadMembers(cfg, doc, t.end, Object([]), []))
    else if t.kind == ArrayBegin then Deeper(ReadArray(cfg, doc, t.end))
    else ReadScalar(cfg, doc, t, cur)
  }

  /** The loop of readObject; name is the previous member's name, empty before the first. */
  function ReadMembers(cfg: Config, doc: bytes, i: nat, obj: Value, name: bytes): (r: Outcome)
    requires i <= |doc|
    ensures Sound(r, doc, i)
    decreases |doc| - i, 2
  {
    match ReadName(doc, i, obj, name)
    case NoName(r) => r
    case NameRead(next, end) =>
      match ReadMember(cfg, doc, end, obj, next)
      case Done(r) => r
      case Continue(obj', end', depth) =>
        var rest := ReadMembers(cfg, doc, end', obj', next);
        rest.(depth := Max(depth, rest.depth))
  }

  /** The name of the next member. An empty previous name lets the object end here. */
  function ReadName(doc: bytes, i: nat, obj: Value, name: bytes): (s: NameStep)
    requires i <= |doc|
    ensures s.NoName? ==> Sound(s.outcome, doc, i) && s.outcome.depth == 0 && s.outcome.value == obj
    ensures s.NameRead? ==> i < s.end <= |doc|
  {
    var t := SkipComments(doc, i);
    if t.kind == ObjectEnd && name == [] then NoName(Outcome(true, obj, t.end, [], 0))
    else if t.kind != String then
      NoName(Failed(obj, RecoverEnd(doc, t.end, ObjectEnd), ErrorInfo(t, MissingMemberName, None), 0))
    else
      var s := StringText(doc, t);
      if s.Decoded? then NameRead(s.text, t.end)
      else NoName(Failed(obj, RecoverEnd(doc, t.end, ObjectEnd), ErrorInfo(t, InString(s.error), Some(s.extra)), 0))
  }

  /** The colon, the member's value, and what follows it. */
  function ReadMember(cfg: Config, doc: bytes, i: nat, obj: Value, name: bytes): (s: Step)
    requires i <= |doc|
    ensures SoundStep(s, doc, i)
    decreases |doc| - i, 1
  {
    var colon := ReadToken(doc, i);
    if colon.kind != MemberSeparator then
      Done(Failed(obj, RecoverEnd(doc, colon.end, ObjectEnd), ErrorInfo(colon, MissingColon, None), 0))
    else
      var r := ReadValue(cfg, doc, colon.end, Child(obj, Name(name)));
      var obj' := PutChild(obj, Name(name), r.value);
      if !r.ok then Done(r.(value := obj', end := RecoverEnd(doc, r.end, ObjectEnd)))
      else AfterMember(doc, r.end, obj', r.depth)
  }

  /** Behind a comment any token at all is taken for the comma. */
  function AfterMember(doc: bytes, i: nat, obj: Value, depth: nat): (s: Step)
    requires i <= |doc|
    ensures s.Done? ==> Sound(s.outcome, doc, i)
    ensures s.Continue? ==> i <= s.end <= |doc|
  {
    var comma := ReadToken(doc, i);
    if comma.kind !in {ObjectEnd, ArraySeparator, Comment} then
      Done(Failed(obj, RecoverEnd(doc, comma.end, ObjectEnd), ErrorInfo(comma, MissingCommaInObject, None), depth))
    else
      var t := SkipComments(doc, i);
      if t.kind == ObjectEnd then Done(Outcome(true, obj, t.end, [], depth))
      else Continue(obj, t.end, depth)
  }

  function ReadArray(cfg: Config, doc: bytes, i: nat): (r: Outcome)
    requires i <= |doc|
    ensures Sound(r, doc, i)
    decreases |doc| - i, 3
  {
    var p := SkipSpaces(doc, i);
    if p < |doc| && doc[p] == RBRACKET then Outcome(true, Array([]), p + 1, [], 0)
    else ReadElements(cfg, doc, p, Array([]), 0)
  }

  /** The loop of readArray. */
  function ReadElements(cfg: Config, doc: bytes, i: nat, arr: Value, index: nat): (r: Outcome)
    requires i <= |doc|
    ensures Sound(r, doc, i)
    decreases |doc| - i, 2
  {
    match ReadElement(cfg, doc, i, arr, index)
    case Done(r) => r
    case Continue(arr', end, depth) =>
      var rest := ReadElements(cfg, doc, end, arr', index + 1);
      rest.(depth := Max(depth, rest.depth))
  }

  function ReadElement(cfg: Config, doc: bytes, i: nat, arr: Value, index: nat): (s: Step)
    requires i <= |doc|
    ensures SoundStep(s, doc, i)
    decreases |doc| - i, 1
  {
    var r := ReadValue(cfg, doc, i, Child(arr, Index(index)));
    var arr' := PutChild(arr, Index(index), r.value);
    if !r.ok then Done(r.(value := arr', end := RecoverEnd(doc, r.end, ArrayEnd)))
    else AfterElement(doc, r.end, arr', r.depth)
  }

  function AfterElement(doc: bytes, i: nat, arr: Value, depth: nat): (s: Step)
    requires i <= |doc|
    ensures SoundStep(s, doc, i)
  {
    var t := SkipComments(doc, i);
    if t.kind == ArrayEnd then Done(Outcome(true, arr, t.end, [], depth))
    else if t.kind == ArraySeparator then Continue(arr, t.end, depth)
    else Done(Failed(arr, RecoverEnd(doc, t.end, ArrayEnd), ErrorInfo(t, MissingCommaInArray, None), depth))
  }

  /** Reader::parse, overwriting root. */
  function Parse(cfg: Config, doc: bytes, root: Value): (r: Outcome) {
    var r := ReadValue(cfg, doc, 0, root);
    var trailing := FirstToken(cfg, doc, r.end);
    if cfg.strictRoot && !r.value.Array? && !r.value.Object? then
      r.(ok := false, end := trailing.end,
         errors := r.errors + [ErrorInfo(Token(ErrorToken, 0, |doc|), RootNotContainer, None)])
    else r.(end := trailing.end)
  }

  /**
   Reader::parse succeeds exactly when it leaves no error behind, and a failing
   parse leaves one error, or two when the strict-root check adds its own.
   */
  lemma ParseReportsFaithfully(cfg: Config, doc: bytes, root: Value)
    ensures var r := Parse(cfg, doc, root);
            && (r.ok <==> r.errors == [])
            && |r.errors| <= (if cfg.strictRoot then 2 else 1)
            && r.end <= |doc|
  {
  }
}
