/**
 Json::Reader as an object: a cursor that moves over the document, a stack of
 pointers to the values being filled in, and a list of errors. Every method is
 proved to do what the functions of Lexer and ReaderSpec compute.
 */
module Reader {
  import opened Bytes
  import opened Values
  import opened Quoting
  import opened Decimal
  import opened Lexer
  import Spec = ReaderSpec

  const STACK_LIMIT: nat := 1000

  /** Writing through a pointer to a child, after the child was looked up and so created if absent. */
  lemma ChildWritten(root: Value, top: Path, k: Key, x: Value)
    ensures var v := At(root, top);
            var created := SetAt(root, top, PutChild(v, k, Child(v, k)));
            && Exists(created, top + [k])
            && At(created, top + [k]) == Child(v, k)
            && SetAt(created, top + [k], x) == SetAt(root, top, PutChild(v, k, x))
  {
    var v := At(root, top);
    var w := PutChild(v, k, Child(v, k));
    var created := SetAt(root, top, w);
    SetAtLaws(root, top, w, PutChild(v, k, x));
    ExtendedPath(created, top, k, x);
    PutChildLaws(v, k, Child(v, k), x);
    ExtendedPath(root, top, k, Child(v, k));
    SetAtExists(root, top + [k], Child(v, k));
  }

  lemma PrependTwice(a: bytes, b: bytes, d: Decoding)
    ensures Prepend(a, Prepend(b, d)) == Prepend(a + b, d)
  {
    if d.Decoded? {
      assert a + (b + d.text) == (a + b) + d.text;
    }
  }

  class Reader {
    const cfg: Spec.Config
    var document: bytes
    var root: Value
    var current: nat
    var nodes: seq<Path>
    var errors: seq<Spec.ErrorInfo>

    constructor (cfg: Spec.Config)
      ensures this.cfg == cfg && document == [] && current == 0 && errors == [] && nodes == [] && root == Null
    {
      this.cfg := cfg;
      document, root, current, nodes, errors := [], Null, 0, [], [];
    }

    ghost predicate InRange()
      reads this
    {
      current <= |document|
    }

    predicate Good()
      reads this
    {
      |errors| == 0
    }

    // ---- Tokens ----

    method GetNextChar() returns (c: byte)
      requires InRange()
      modifies this`current
      ensures current == if old(current) < |document| then old(current) + 1 else old(current)
      ensures c == if old(current) < |document| then document[old(current)] else NUL
    {
      if current == |document| {
        return NUL;
      }
      c := document[current];
      current := current + 1;
    }

    method SkipSpaces()
      requires InRange()
      modifies this`current
      ensures InRange() && current == Lexer.SkipSpaces(document, old(current))
    {
      while current != |document|
        invariant InRange() && Lexer.SkipSpaces(document, current) == Lexer.SkipSpaces(document, old(current))
        decreases |document| - current
      {
        var c := document[current];
        if c == SPACE || c == TAB || c == CR || c == LF {
          current := current + 1;
        } else {
          break;
        }
      }
    }

    method Match(pattern: bytes) returns (ok: bool)
      requires InRange()
      modifies this`current
      ensures InRange() && (ok, current) == Lexer.Match(document, old(current), pattern)
    {
      if |document| - current < |pattern| {
        return false;
      }
      var index := |pattern|;
      while index > 0
        invariant 0 <= index <= |pattern| <= |document| - current
        invariant forall j | index <= j < |pattern| :: document[current + j] == pattern[j]
      {
        index := index - 1;
        if document[current + index] != pattern[index] {
          assert document[current..current + |pattern|][index] != pattern[index];
          return false;
        }
      }
      assert document[current..current + |pattern|] == pattern;
      current := current + |pattern|;
      ok := true;
    }

    method ReadString() returns (ok: bool)
      requires InRange()
      modifies this`current
      ensures InRange() && (ok, current) == ScanString(document, old(current))
    {
      var c: byte := NUL;
      while current != |document|
        invariant InRange() && c != QUOTE
        invariant ScanString(document, current) == ScanString(document, old(current))
        decreases |document| - current
      {
        c := GetNextChar();
        if c == BACKSLASH {
          var _ := GetNextChar();
        } else if c == QUOTE {
          break;
        }
      }
      ok := c == QUOTE;
    }

    method ReadCStyleComment() returns (ok: bool)
      requires InRange()
      modifies this`current
      ensures InRange() && (ok, current) == CStyleEnd(document, old(current))
    {
      while current + 1 < |document|
        invariant InRange() && CStyleEnd(document, current) == CStyleEnd(document, old(current))
        decreases |document| - current
      {
        var c := GetNextChar();
        if c == STAR && document[current] == SLASH {
          break;
        }
      }
      var last := GetNextChar();
      ok := last == SLASH;
    }

    method ReadCppStyleComment()
      requires InRange()
      modifies this`current
      ensures InRange() && current == CppStyleEnd(document, old(current))
    {
      while current != |document|
        invariant InRange() && CppStyleEnd(document, current) == CppStyleEnd(document, old(current))
        decreases |document| - current
      {
        var c := GetNextChar();
        if c == LF {
          break;
        }
        if c == CR {
          if current != |document| && document[current] == LF {
            var _ := GetNextChar();
          }
          break;
        }
      }
    }

    method ReadComment() returns (ok: bool)
      requires InRange()
      modifies this`current
      ensures InRange() && (ok, current) == CommentEnd(document, old(current))
    {
      var c := GetNextChar();
      ok := false;
      if c == STAR {
        ok := ReadCStyleComment();
      } else if c == SLASH {
        ReadCppStyleComment();
        ok := true;
      }
    }

    /** c is the character at the cursor and p the position after it; at the end c is NUL. */
    ghost predicate Peeked(c: byte, p: nat)
      reads this
    {
      InRange() && if current < |document| then c == document[current] && p == current + 1 else c == NUL && p == current
    }

    /** `c = (current_ = p) < end_ ? *p++ : '\0'`. */
    method Peek(p: nat) returns (c: byte, q: nat)
      requires p <= |document|
      modifies this`current
      ensures current == p && Peeked(c, q)
    {
      current := p;
      if current < |document| {
        c, q := document[p], p + 1;
      } else {
        c, q := NUL, p;
      }
    }

    /** One digit loop of readNumber. */
    method ReadDigits(c0: byte, p0: nat) returns (c: byte, p: nat)
      requires p0 <= |document| && InRange()
      requires !IsDigit(c0) ==> Peeked(c0, p0)
      modifies this`current
      ensures Peeked(c, p) && !IsDigit(c)
      ensures current == if IsDigit(c0) then SkipDigits(document, p0) else old(current)
    {
      c, p := c0, p0;
      while IsDigit(c)
        invariant p <= |document|
        invariant IsDigit(c) ==> IsDigit(c0) && SkipDigits(document, p) == SkipDigits(document, p0)
        invariant !IsDigit(c) ==> Peeked(c, p)
        invariant !IsDigit(c) ==> current == if IsDigit(c0) then SkipDigits(document, p0) else old(current)
        decreases if IsDigit(c) then |document| + 1 - p else 0
      {
        c, p := Peek(p);
      }
    }

    method ReadNumber()
      requires InRange()
      modifies this`current
      ensures InRange() && current == NumberEnd(document, old(current))
    {
      hide SkipDigits;
      var c, p := ReadDigits(ZERO, current);
      c, p := ReadFraction(c, p);
      ReadExponent(c, p);
    }

    /** The fractional part of readNumber. */
    method ReadFraction(c0: byte, p0: nat) returns (c: byte, p: nat)
      requires Peeked(c0, p0) && !IsDigit(c0)
      modifies this`current
      ensures Peeked(c, p) && !IsDigit(c)
      ensures current == FractionEnd(document, old(current))
    {
      c, p := c0, p0;
      if c == DOT {
        c, p := Peek(p);
        c, p := ReadDigits(c, p);
      }
    }

    /** The exponential part of readNumber. */
    method ReadExponent(c0: byte, p0: nat)
      requires Peeked(c0, p0) && !IsDigit(c0)
      modifies this`current
      ensures InRange() && current == ExponentEnd(document, old(current))
    {
      var c, p := c0, p0;
      if c == 101 || c == 69 {
        c, p := Peek(p);
        if c == PLUS || c == MINUS {
          c, p := Peek(p);
        }
        c, p := ReadDigits(c, p);
      }
    }

    method ReadToken() returns (token: Token)
      requires InRange()
      modifies this`current
      ensures InRange() && token == Lexer.ReadToken(document, old(current)) && current == token.end
    {
      SkipSpaces();
      var start := current;
      var c := GetNextChar();
      var ok := true;
      var kind := ErrorToken;
      if start == |document| {
        kind := EndOfStream;
      } else if c == LBRACE {
        kind := ObjectBegin;
      } else if c == RBRACE {
        kind := ObjectEnd;
      } else if c == LBRACKET {
        kind := ArrayBegin;
      } else if c == RBRACKET {
        kind := ArrayEnd;
      } else if c == QUOTE {
        kind := String;
        ok := ReadString();
      } else if c == SLASH {
        kind := Comment;
        ok := ReadComment();
      } else if IsDigit(c) || c == MINUS {
        kind := Number;
        ReadNumber();
      } else if c == TRUE_TEXT[0] {
        kind := True;
        ok := Match(TRUE_TEXT[1..]);
      } else if c == FALSE_TEXT[0] {
        kind := False;
        ok := Match(FALSE_TEXT[1..]);
      } else if c == NULL_TEXT[0] {
        kind := NullToken;
        ok := Match(NULL_TEXT[1..]);
      } else if c == COMMA {
        kind := ArraySeparator;
      } else if c == COLON {
        kind := MemberSeparator;
      } else if c == NUL {
        kind := EndOfStream;
      } else {
        ok := false;
      }
      if !ok {
        kind := ErrorToken;
      }
      token := Token(kind, start, current);
    }

    /** `while (token.type_ == tokenComment) readToken(token)` after a first readToken. */
    method ReadTokenPastComments() returns (token: Token)
      requires InRange()
      modifies this`current
      ensures InRange() && token == SkipComments(document, old(current)) && current == token.end
    {
      token := ReadToken();
      while token.kind == Comment
        invariant InRange() && current == token.end
        invariant token.kind == Comment ==> SkipComments(document, current) == SkipComments(document, old(current))
        invariant token.kind != Comment ==> token == SkipComments(document, old(current))
        decreases |document| - current, token.kind == Comment
      {
        token := ReadToken();
      }
    }

    method SkipCommentTokens() returns (token: Token)
      requires InRange()
      modifies this`current
      ensures InRange() && token == Spec.FirstToken(cfg, document, old(current)) && current == token.end
    {
      if cfg.allowComments {
        token := ReadTokenPastComments();
      } else {
        token := ReadToken();
      }
    }

    // ---- Errors ----

    method AddError(message: Spec.Message, token: Token, extra: Option<nat>) returns (ok: bool)
      modifies this`errors
      ensures !ok && errors == old(errors) + [Spec.ErrorInfo(token, message, extra)]
    {
      errors := errors + [Spec.ErrorInfo(token, message, extra)];
      ok := false;
    }

    method RecoverFromError(skipUntil: TokenType) returns (ok: bool)
      requires InRange()
      modifies this`current, this`errors
      ensures !ok && errors == old(errors)
      ensures InRange() && current == RecoverEnd(document, old(current), skipUntil)
    {
      var errorCount := |errors|;
      while true
        invariant InRange() && errors == old(errors)
        invariant RecoverEnd(document, current, skipUntil) == RecoverEnd(document, old(current), skipUntil)
        decreases |document| - current
      {
        var skip := ReadToken();
        if skip.kind == skipUntil || skip.kind == EndOfStream {
          break;
        }
      }
      errors := errors[..errorCount];
      ok := false;
    }

    method AddErrorAndRecover(message: Spec.Message, token: Token, skipUntil: TokenType) returns (ok: bool)
      requires InRange()
      modifies this`current, this`errors
      ensures !ok && errors == old(errors) + [Spec.ErrorInfo(token, message, None)]
      ensures InRange() && current == RecoverEnd(document, old(current), skipUntil)
    {
      var _ := AddError(message, token, None);
      ok := RecoverFromError(skipUntil);
    }

    // ---- Scalars ----

    method DecodeUnicodeEscapeSequence(token: Token, cursor0: nat, end: nat)
      returns (ok: bool, unicode: nat, cursor: nat)
      requires cursor0 <= end <= |document|
      modifies this`errors
      ensures var u := EscapeSequence(document, cursor0, end);
              && (ok <==> u.Unit?)
              && (u.Unit? ==> u == Unit(unicode, cursor) && errors == old(errors))
              && (u.BadUnit? ==> errors == old(errors) + [Spec.ErrorInfo(token, Spec.InString(u.error), Some(u.extra))])
    {
      unicode, cursor := 0, cursor0;
      if end - cursor < 4 {
        ok := AddError(Spec.InString(FourDigitsExpected), token, Some(cursor));
        return;
      }
      var index := 0;
      while index < 4
        invariant index <= 4 && cursor == cursor0 + index && errors == old(errors)
        invariant HexRun(document, cursor, cursor0 + 4, unicode) == HexRun(document, cursor0, cursor0 + 4, 0)
      {
        var c := document[cursor];
        cursor := cursor + 1;
        unicode := unicode * 16;
        if 48 <= c <= 57 {
          unicode := unicode + (c - 48);
        } else if 97 <= c <= 102 {
          unicode := unicode + (c - 97 + 10);
        } else if 65 <= c <= 70 {
          unicode := unicode + (c - 65 + 10);
        } else {
          ok := AddError(Spec.InString(HexDigitExpected), token, Some(cursor));
          return;
        }
        index := index + 1;
      }
      ok := true;
    }

    method DecodeUnicodeCodePoint(token: Token, cursor0: nat, end: nat)
      returns (ok: bool, unicode: nat, cursor: nat)
      requires cursor0 <= end <= |document|
      modifies this`errors
      ensures var u := CodePoint(document, cursor0, end);
              && (ok <==> u.Unit?)
              && (u.Unit? ==> u == Unit(unicode, cursor) && errors == old(errors))
              && (u.BadUnit? ==> errors == old(errors) + [Spec.ErrorInfo(token, Spec.InString(u.error), Some(u.extra))])
    {
      ok, unicode, cursor := DecodeUnicodeEscapeSequence(token, cursor0, end);
      if !ok {
        return;
      }
      if 0xD800 <= unicode <= 0xDBFF {
        if end - cursor < 6 {
          ok := AddError(Spec.InString(SixMoreExpected), token, Some(cursor));
          return;
        }
        cursor := cursor + 1;
        if document[cursor - 1] == BACKSLASH {
          cursor := cursor + 1;
          if document[cursor - 1] == 117 {
            var surrogatePair;
            ok, surrogatePair, cursor := DecodeUnicodeEscapeSequence(token, cursor, end);
            if ok {
              unicode := 0x10000 + unicode % 1024 * 1024 + surrogatePair % 1024;
            }
            return;
          }
        }
        ok := AddError(Spec.InString(SecondSurrogateExpected), token, Some(cursor));
      }
    }

    ghost predicate DecodedAs(d: Decoding, ok: bool, text: bytes, token: Token, before: seq<Spec.ErrorInfo>)
      reads this
    {
      && (ok <==> d.Decoded?)
      && (d.Decoded? ==> text == d.text && errors == before)
      && (d.Undecodable? ==> errors == before + [Spec.ErrorInfo(token, Spec.InString(d.error), Some(d.extra))])
    }

    method DecodeString(token: Token) returns (ok: bool, decoded: bytes)
      requires token.start + 2 <= token.end <= |document|
      modifies this`errors
      ensures DecodedAs(Spec.StringText(document, token), ok, decoded, token, old(errors))
    {
      decoded := [];
      var cursor := token.start + 1;
      var end := token.end - 1;
      ok := true;
      while cursor != end
        invariant ok && cursor <= end && errors == old(errors)
        invariant Spec.StringText(document, token) == Prepend(decoded, Decode(document, cursor, end))
        decreases end - cursor
      {
        var c := document[cursor];
        if c == QUOTE {
          break;
        } else if c == BACKSLASH {
          if cursor + 1 == end {
            ok := AddError(Spec.InString(EmptyEscape), token, Some(cursor + 1));
            return;
          }
          ghost var before, start := decoded, cursor;
          ok, decoded, cursor := DecodeEscape(token, decoded, cursor, end);
          if !ok {
            return;
          }
        } else {
          PrependTwice(decoded, [c], Decode(document, cursor + 1, end));
          decoded := decoded + [c];
          cursor := cursor + 1;
        }
      }
    }

    /** The switch on the character after a backslash. */
    method DecodeEscape(token: Token, decoded0: bytes, cursor0: nat, end: nat)
      returns (ok: bool, decoded: bytes, cursor: nat)
      requires cursor0 + 1 < end <= |document| && document[cursor0] == BACKSLASH
      modifies this`errors
      ensures ok ==> cursor0 < cursor <= end && errors == old(errors)
      ensures ok ==> Prepend(decoded0, Decode(document, cursor0, end)) == Prepend(decoded, Decode(document, cursor, end))
      ensures !ok ==> DecodedAs(Decode(document, cursor0, end), ok, [], token, old(errors))
    {
      var escape := document[cursor0 + 1];
      decoded, cursor := decoded0, cursor0 + 2;
      if escape == 117 {
        var unicode;
        ok, unicode, cursor := DecodeUnicodeCodePoint(token, cursor, end);
        if ok {
          decoded := decoded + CodePointToUTF8(unicode);
          PrependTwice(decoded0, CodePointToUTF8(unicode), Decode(document, cursor, end));
        }
        return;
      }
      var u := Unescape(escape);
      if u.Some? {
        ok := true;
        decoded := decoded + [u.value];
        PrependTwice(decoded0, [u.value], Decode(document, cursor, end));
      } else {
        ok := AddError(Spec.InString(BadEscape), token, Some(cursor));
      }
    }

    // ---- Values ----

    ghost predicate Ready()
      reads this
    {
      InRange() && |nodes| > 0 && Exists(root, Top())
    }

    /** Where the value being read lives. */
    ghost function Top(): Path
      requires |nodes| > 0
      reads this
    {
      nodes[|nodes| - 1]
    }

    function CurrentValue(): Value
      requires |nodes| > 0
      reads this
    {
      At(root, nodes[|nodes| - 1])
    }

    method SetCurrentValue(v: Value)
      requires |nodes| > 0
      modifies this`root
      ensures root == SetAt(old(root), Top(), v)
      ensures CurrentValue() == v && Exists(root, Top())
    {
      SetAtLaws(root, Top(), v, v);
      SetAtExists(root, Top(), v);
      root := SetAt(root, nodes[|nodes| - 1], v);
    }

    /** The state after reading has produced r at the top of the stack, starting from an earlier root and error list. */
    ghost predicate Produced(r: Spec.Outcome, ok: bool, root0: Value, errors0: seq<Spec.ErrorInfo>)
      requires |nodes| > 0
      reads this
    {
      && ok == r.ok
      && current == r.end <= |document|
      && root == SetAt(root0, Top(), r.value)
      && errors == errors0 + r.errors
    }

    /** The deepest readValue call still finds at most STACK_LIMIT nodes on the stack. */
    ghost predicate StackSuffices(depth: nat)
      reads this
    {
      |nodes| - 1 + depth <= STACK_LIMIT
    }

    method ReadScalar(token: Token) returns (ok: bool)
      requires Ready() && token.start <= token.end == current
      requires token.kind == Number ==> token.start < token.end
      requires token.kind == String ==> token.start + 2 <= token.end
      requires cfg.allowDroppedNullPlaceholders && token.kind in {ArraySeparator, ObjectEnd, ArrayEnd} ==> token.start < token.end
      modifies this`current, this`root, this`errors
      ensures Produced(Spec.ReadScalar(cfg, document, token, old(CurrentValue())), ok, old(root), old(errors))
    {
      hide At, SetAt, Exists, Child, PutChild, Spec.NumberValue, Spec.StringText, Decode;
      SetAtSelf(root, Top());
      ok := true;
      if token.kind == Number {
        ok := DecodeNumberToken(token);
      } else if token.kind == String {
        var text;
        ok, text := DecodeString(token);
        if ok {
          SetCurrentValue(Str(text));
        }
      } else if token.kind == True {
        SetCurrentValue(Bool(true));
      } else if token.kind == False {
        SetCurrentValue(Bool(false));
      } else if token.kind == NullToken {
        SetCurrentValue(Null);
      } else if cfg.allowDroppedNullPlaceholders && token.kind in {ArraySeparator, ObjectEnd, ArrayEnd} {
        current := current - 1;
        SetCurrentValue(Null);
      } else {
        ok := AddError(Spec.ValueExpected, token, None);
      }
    }

    method DecodeNumberToken(token: Token) returns (ok: bool)
      requires Ready() && token.start < token.end <= |document|
      modifies this`root, this`errors
      ensures var v := Spec.NumberValue(cfg, Spec.Text(document, token));
              && (ok <==> v.Some?)
              && (ok ==> root == SetAt(old(root), Top(), v.value) && errors == old(errors))
              && (!ok ==> root == old(root) && errors == old(errors) + [Spec.ErrorInfo(token, Spec.NotANumber, None)])
    {
      var text := document[token.start..token.end];
      var decoded := DecodeNumber(text);
      if decoded.None? {
        var d := cfg.toDouble(text);
        if d.None? {
          ok := AddError(Spec.NotANumber, token, None);
          return;
        }
        decoded := Some(Real(d.value));
      }
      SetCurrentValue(decoded.value);
      ok := true;
    }

    /** Reader::readValue. */
    method ReadValue() returns (ok: bool)
      requires Ready()
      requires StackSuffices(Spec.ReadValue(cfg, document, current, CurrentValue()).depth)
      modifies this`current, this`root, this`nodes, this`errors
      ensures nodes == old(nodes) && Ready()
      ensures Produced(Spec.ReadValue(cfg, document, old(current), old(CurrentValue())), ok, old(root), old(errors))
      decreases |document| - current, 0
    {
      hide At, SetAt, Exists, Child, PutChild, Lexer.ReadToken, SkipComments, RecoverEnd, Spec.ReadMembers, Spec.ReadArray, Spec.ReadScalar;
      ghost var r := Spec.ReadValue(cfg, document, current, CurrentValue());
      ghost var root0, top := root, Top();
      // throwRuntimeError, which must not be reached, would be called if this failed
      assert |nodes| <= STACK_LIMIT;
      var token := SkipCommentTokens();
      if token.kind == ObjectBegin {
        SetCurrentValue(Object([]));
        ok := ReadObject();
      } else if token.kind == ArrayBegin {
        SetCurrentValue(Array([]));
        ok := ReadArray();
      } else {
        ok := ReadScalar(token);
      }
      SetAtLaws(root0, top, Object([]), r.value);
      SetAtLaws(root0, top, Array([]), r.value);
      SetAtExists(root0, top, r.value);
    }

    /** Reader::readObject after its opening brace; the current value is already an empty object. */
    method ReadObject() returns (ok: bool)
      requires Ready() && CurrentValue() == Object([])
      requires StackSuffices(Spec.ReadMembers(cfg, document, current, Object([]), []).depth + 1)
      modifies this`current, this`root, this`nodes, this`errors
      ensures nodes == old(nodes) && Ready()
      ensures Produced(Spec.ReadMembers(cfg, document, old(current), Object([]), []), ok, old(root), old(errors))
      decreases |document| - current, 3
    {
      hide At, SetAt, Exists, Child, PutChild, Lexer.ReadToken, SkipComments, RecoverEnd, Spec.ReadMember, Spec.ReadName;
      var name: bytes := [];
      SetAtSelf(root, Top());
      ghost var root0, top := root, Top();
      ghost var r := Spec.ReadMembers(cfg, document, current, Object([]), []);
      ghost var depth := 0;
      while true
        invariant nodes == old(nodes) && Ready() && errors == old(errors)
        invariant current >= old(current)
        invariant root == SetAt(old(root), Top(), CurrentValue())
        invariant var rest := Spec.ReadMembers(cfg, document, current, CurrentValue(), name);
                  r == rest.(depth := Max(depth, rest.depth))
        decreases |document| - current
      {
        var named;
        named, ok, name := ReadName(name);
        if !named {
          return;
        }
        ghost var step := Spec.ReadMember(cfg, document, current, CurrentValue(), name);
        SetAtLaws(root0, top, CurrentValue(), StepValue(step));
        var finished;
        finished, ok := ReadMember(name);
        if finished {
          return;
        }
        depth := Max(depth, step.depth);
      }
    }

    /** The member name at the head of readObject's loop. */
    method ReadName(previous: bytes) returns (named: bool, ok: bool, name: bytes)
      requires Ready()
      modifies this`current, this`errors
      ensures var s := Spec.ReadName(document, old(current), CurrentValue(), previous);
              && InRange()
              && (named <==> s.NameRead?)
              && (s.NameRead? ==> name == s.name && current == s.end && errors == old(errors))
              && (s.NoName? ==> ok == s.outcome.ok && current == s.outcome.end && errors == old(errors) + s.outcome.errors)
    {
      hide RecoverEnd, SkipComments, Decode, At;
      named, name := false, previous;
      var tokenName := ReadTokenPastComments();
      if tokenName.kind == ObjectEnd && name == [] {
        ok := true;
        return;
      }
      name := [];
      if tokenName.kind != String {
        ok := AddErrorAndRecover(Spec.MissingMemberName, tokenName, ObjectEnd);
        return;
      }
      ok, name := DecodeString(tokenName);
      if !ok {
        ok := RecoverFromError(ObjectEnd);
        return;
      }
      named := true;
    }

    /** A step of a container loop has been carried out at the top of the stack. */
    ghost predicate Stepped(s: Spec.Step, finished: bool, ok: bool, root0: Value, errors0: seq<Spec.ErrorInfo>)
      requires |nodes| > 0
      reads this
    {
      && (finished <==> s.Done?)
      && (s.Done? ==> Produced(s.outcome, ok, root0, errors0))
      && (s.Continue? ==> current == s.end <= |document| && root == SetAt(root0, Top(), s.value)
                          && CurrentValue() == s.value && errors == errors0)
    }

    ghost function StepDepth(s: Spec.Step): nat {
      match s
      case Done(r) => r.depth
      case Continue(_, _, d) => d
    }

    ghost function StepValue(s: Spec.Step): Value {
      match s
      case Done(r) => r.value
      case Continue(v, _, _) => v
    }

    /** One member, from its colon to behind what follows its value. */
    method ReadMember(name: bytes) returns (finished: bool, ok: bool)
      requires Ready()
      requires StackSuffices(StepDepth(Spec.ReadMember(cfg, document, current, CurrentValue(), name)) + 1)
      modifies this`current, this`root, this`nodes, this`errors
      ensures nodes == old(nodes) && Ready()
      ensures Stepped(Spec.ReadMember(cfg, document, old(current), old(CurrentValue()), name), finished, ok, old(root), old(errors))
      decreases |document| - current, 2
    {
      hide At, SetAt, Exists, Child, PutChild, Lexer.ReadToken, SkipComments, RecoverEnd, Spec.ReadValue;
      SetAtSelf(root, Top());
      var colon := ReadToken();
      if colon.kind != MemberSeparator {
        ok := AddErrorAndRecover(Spec.MissingColon, colon, ObjectEnd);
        return true, ok;
      }
      ok := ReadChild(Name(name));
      if !ok {
        ok := RecoverFromError(ObjectEnd);
        return true, ok;
      }
      finished, ok := FinishMember();
    }

    /** `nodes_.push(&currentValue()[key]); readValue(); nodes_.pop();` */
    method ReadChild(k: Key) returns (ok: bool)
      requires Ready()
      requires StackSuffices(Spec.ReadValue(cfg, document, current, Child(CurrentValue(), k)).depth + 1)
      modifies this`current, this`root, this`nodes, this`errors
      ensures nodes == old(nodes) && Ready()
      ensures var r := Spec.ReadValue(cfg, document, old(current), Child(old(CurrentValue()), k));
              Produced(r.(value := PutChild(old(CurrentValue()), k, r.value)), ok, old(root), old(errors))
              && CurrentValue() == PutChild(old(CurrentValue()), k, r.value)
      decreases |document| - current, 1
    {
      hide At, SetAt, Exists, Child, PutChild, Lexer.ReadToken, SkipComments, RecoverEnd, Spec.ReadValue;
      ghost var root0, top, v := root, Top(), CurrentValue();
      ghost var r := Spec.ReadValue(cfg, document, current, Child(v, k));
      ChildWritten(root0, top, k, r.value);
      SetCurrentValue(PutChild(CurrentValue(), k, Child(CurrentValue(), k)));
      nodes := nodes + [nodes[|nodes| - 1] + [k]];
      ok := ReadValue();
      nodes := nodes[..|nodes| - 1];
      SetAtLaws(root0, top, PutChild(v, k, r.value), Null);
      SetAtExists(root0, top, PutChild(v, k, r.value));
    }

    /** What follows a member's value. */
    method FinishMember() returns (finished: bool, ok: bool)
      requires Ready()
      modifies this`current, this`errors
      ensures var s := Spec.AfterMember(document, old(current), CurrentValue(), 0);
              && InRange()
              && (finished <==> s.Done?)
              && (s.Done? ==> ok == s.outcome.ok && current == s.outcome.end && errors == old(errors) + s.outcome.errors)
              && (s.Continue? ==> current == s.end && errors == old(errors))
    {
      var comma := ReadToken();
      if comma.kind != ObjectEnd && comma.kind != ArraySeparator && comma.kind != Comment {
        ok := AddErrorAndRecover(Spec.MissingCommaInObject, comma, ObjectEnd);
        return true, ok;
      }
      if comma.kind == Comment {
        comma := ReadTokenPastComments();
      }
      return comma.kind == ObjectEnd, true;
    }

    /** Reader::readArray after its opening bracket; the current value is already an empty array. */
    method ReadArray() returns (ok: bool)
      requires Ready() && CurrentValue() == Array([])
      requires StackSuffices(Spec.ReadArray(cfg, document, current).depth + 1)
      modifies this`current, this`root, this`nodes, this`errors
      ensures nodes == old(nodes) && Ready()
      ensures Produced(Spec.ReadArray(cfg, document, old(current)), ok, old(root), old(errors))
      decreases |document| - current, 3
    {
      hide At, SetAt, Exists, Child, PutChild, SkipComments, RecoverEnd, Spec.ReadElement;
      SetAtSelf(root, Top());
      ghost var root0, top := root, Top();
      SkipSpaces();
      if current != |document| && document[current] == RBRACKET {
        var _ := ReadToken();
        ok := true;
        return;
      }
      var index := 0;
      ghost var start := current;
      ghost var r := Spec.ReadElements(cfg, document, current, Array([]), 0);
      ghost var depth := 0;
      while true
        invariant nodes == old(nodes) && Ready() && errors == old(errors)
        invariant current >= old(current)
        invariant root == SetAt(old(root), Top(), CurrentValue())
        invariant var rest := Spec.ReadElements(cfg, document, current, CurrentValue(), index);
                  r == rest.(depth := Max(depth, rest.depth))
        decreases |document| - current
      {
        ghost var step := Spec.ReadElement(cfg, document, current, CurrentValue(), index);
        SetAtLaws(root0, top, CurrentValue(), StepValue(step));
        var finished;
        finished, ok := ReadElement(index);
        if finished {
          return;
        }
        index := index + 1;
        depth := Max(depth, step.depth);
      }
    }

    /** One element and what follows it. */
    method ReadElement(index: nat) returns (finished: bool, ok: bool)
      requires Ready()
      requires StackSuffices(StepDepth(Spec.ReadElement(cfg, document, current, CurrentValue(), index)) + 1)
      modifies this`current, this`root, this`nodes, this`errors
      ensures nodes == old(nodes) && Ready()
      ensures Stepped(Spec.ReadElement(cfg, document, old(current), old(CurrentValue()), index), finished, ok, old(root), old(errors))
      decreases |document| - current, 2
    {
      hide At, SetAt, Exists, Child, PutChild, Lexer.ReadToken, SkipComments, RecoverEnd, Spec.ReadValue;
      ok := ReadChild(Index(index));
      if !ok {
        ok := RecoverFromError(ArrayEnd);
        return true, ok;
      }
      var currentToken := ReadTokenPastComments();
      if currentToken.kind != ArraySeparator && currentToken.kind != ArrayEnd {
        ok := AddErrorAndRecover(Spec.MissingCommaInArray, currentToken, ArrayEnd);
        return true, ok;
      }
      return currentToken.kind == ArrayEnd, true;
    }

    /**
     Reader::parse without collecting comments, into a root that may hold anything.
     The nesting of the document must stay within the stack limit.
     */
    method Parse(text: bytes, root0: Value) returns (successful: bool)
      requires Spec.ReadValue(cfg, text, 0, root0).depth <= STACK_LIMIT
      modifies this
      ensures document == text && nodes == [[]]
      ensures var r := Spec.Parse(cfg, text, root0);
              successful == r.ok && root == r.value && current == r.end && errors == r.errors
      ensures successful <==> Good()
    {
      hide Spec.ReadValue, Spec.FirstToken;
      document, root := text, root0;
      current := 0;
      errors := [];
      nodes := [[]];
      successful := ReadValue();
      var token := SkipCommentTokens();
      if cfg.strictRoot {
        if !root.Array? && !root.Object? {
          successful := AddError(Spec.RootNotContainer, Token(ErrorToken, 0, |document|), None);
          return;
        }
      }
    }
  }
}
