/**
  Json::Reader with its default features: a cursor over the document, a stack of pointers into
  the tree under construction, a depth counter and an error list. Each method is proved against
  the functional parser of module Syntax.
*/
module Readers {
  import opened Bytes
  import opened Diagnostics
  import opened Unicode
  import opened Values
  import opened Places
  import opened Strings
  import opened Numbers
  import opened Lexer
  import opened Syntax

  /** How a call ends: with its boolean result, or by the stack-limit exception. */
  datatype Status = Returned(ok: bool) | Exception

  class Reader {
    var doc: bytes
    var current: nat
    var root: Value
    var nodes: seq<Place>
    var errors: seq<Error>
    var stackDepth: nat
    const toDouble: ToDouble

    constructor (toDouble: ToDouble)
      ensures errors == [] && this.toDouble == toDouble
    {
      this.toDouble := toDouble;
      doc, current, root, nodes, errors, stackDepth := [], 0, NULL_VALUE, [], [], 0;
    }

    // ----- The lexer -----

    /** getNextChar. */
    method GetNextChar() returns (c: byte)
      requires current <= |doc|
      modifies this`current
      ensures c == At(doc, old(current))
      ensures current == if old(current) < |doc| then old(current) + 1 else old(current)
    {
      if current == |doc| { return NUL; }
      c := doc[current];
      current := current + 1;
    }

    method SkipSpaces()
      requires current <= |doc|
      modifies this`current
      ensures current == SpaceEnd(doc, old(current))
    {
      while current != |doc|
        invariant current <= |doc|
        invariant SpaceEnd(doc, current) == SpaceEnd(doc, old(current))
        decreases |doc| - current
      {
        var c := doc[current];
        if c == SPACE || c == TAB || c == CR || c == LF {
          current := current + 1;
        } else {
          break;
        }
      }
    }

    /** match: compares from the last byte of the pattern to the first. */
    method Match(pattern: bytes) returns (ok: bool)
      requires current <= |doc|
      modifies this`current
      ensures ok <==> StandsAt(doc, old(current), pattern)
      ensures current == if ok then old(current) + |pattern| else old(current)
    {
      if |doc| - current < |pattern| { return false; }
      var index := |pattern|;
      while index > 0
        invariant 0 <= index <= |pattern| <= |doc| - current
        invariant forall i :: index <= i < |pattern| ==> doc[current + i] == pattern[i]
      {
        index := index - 1;
        if doc[current + index] != pattern[index] { return false; }
      }
      assert doc[current..current + |pattern|] == pattern;
      current := current + |pattern|;
      return true;
    }

    method ReadCStyleComment() returns (ok: bool)
      requires current <= |doc|
      modifies this`current
      ensures var p := BlockEnd(doc, old(current));
              ok == (p < |doc|) && current == if ok then p + 1 else p
    {
      while current != |doc|
        invariant current <= |doc|
        invariant BlockEnd(doc, current) == BlockEnd(doc, old(current))
        decreases |doc| - current
      {
        var c := GetNextChar();
        if c == STAR && At(doc, current) == SLASH {
          assert BlockEnd(doc, old(current)) == current;
          c := GetNextChar();
          return c == SLASH;
        }
      }
      return false;
    }

    method ReadCppStyleComment()
      requires current <= |doc|
      modifies this`current
      ensures current == LineEnd(doc, old(current))
    {
      while current != |doc|
        invariant current <= |doc|
        invariant LineEnd(doc, current) == LineEnd(doc, old(current))
        decreases |doc| - current
      {
        var c := GetNextChar();
        if c == LF { return; }
        if c == CR {
          if current != |doc| && doc[current] == LF { c := GetNextChar(); }
          return;
        }
      }
    }

    method ReadComment() returns (ok: bool)
      requires current <= |doc|
      modifies this`current
      ensures (ok, current) == CommentEnd(doc, old(current))
    {
      var c := GetNextChar();
      ok := false;
      if c == STAR {
        ok := ReadCStyleComment();
      } else if c == SLASH {
        ReadCppStyleComment();
        ok := true;
      }
    }

    /** Moves the cursor to p and takes the character there, if there is one before the end. */
    method NextNumberChar(p: nat) returns (c: byte, p': nat)
      requires p <= |doc|
      modifies this`current
      ensures current == p && c == At(doc, p) && p' == if p < |doc| then p + 1 else p
    {
      current := p;
      if current < |doc| {
        c, p' := doc[p], p + 1;
      } else {
        c, p' := NUL, p;
      }
    }

    /** Position after the one whose character has been taken. */
    ghost function After(p: nat): nat
      reads this`doc
    {
      if p < |doc| then p + 1 else p
    }

    /** The digit loop that readNumber writes out three times; the row of digits begins at start. */
    method ReadDigits(c0: byte, p0: nat, ghost start: nat) returns (c: byte, p: nat)
      requires p0 <= |doc| && start <= |doc|
      requires IsDigit(c0) ==> DigitsEnd(doc, p0) == DigitsEnd(doc, start)
      requires !IsDigit(c0) ==> current == start && c0 == At(doc, start) && p0 == After(start)
      modifies this`current
      ensures current == DigitsEnd(doc, start) && c == At(doc, current) && p == After(current) <= |doc|
    {
      c, p := c0, p0;
      while c >= ZERO && c <= NINE
        invariant p <= |doc|
        invariant IsDigit(c) ==> DigitsEnd(doc, p) == DigitsEnd(doc, start)
        invariant !IsDigit(c) ==> current == DigitsEnd(doc, start) && c == At(doc, current) && p == After(current)
        decreases |doc| - p, if IsDigit(c) then 1 else 0
      {
        c, p := NextNumberChar(p);
      }
    }

    method ReadNumber()
      requires current <= |doc|
      modifies this`current
      ensures current == NumberEnd(doc, old(current))
    {
      var p := current;
      var c := ZERO;  // stopgap for the character already consumed
      c, p := ReadDigits(c, p, p);
      c, p := ReadFraction(c, p);
      ReadExponent(c, p);
    }

    method ReadFraction(c0: byte, p0: nat) returns (c: byte, p: nat)
      requires current <= |doc| && c0 == At(doc, current) && p0 == After(current)
      modifies this`current
      ensures current == FractionEnd(doc, old(current)) && c == At(doc, current) && p == After(current) <= |doc|
    {
      c, p := c0, p0;
      if c == DOT {
        ghost var start := p;
        c, p := NextNumberChar(p);
        c, p := ReadDigits(c, p, start);
      }
    }

    method ReadExponent(c0: byte, p0: nat)
      requires current <= |doc| && c0 == At(doc, current) && p0 == After(current)
      modifies this`current
      ensures current == ExponentEnd(doc, old(current))
    {
      var c, p := c0, p0;
      if c == LOWER_E || c == UPPER_E {
        ghost var start := p;
        c, p := NextNumberChar(p);
        if c == PLUS || c == MINUS {
          start := p;
          c, p := NextNumberChar(p);
        }
        c, p := ReadDigits(c, p, start);
      }
    }

    method ReadString() returns (ok: bool)
      requires current <= |doc|
      modifies this`current
      ensures match StringEnd(doc, old(current))
              case Some(e) => ok && current == e
              case None => !ok && current == |doc|
    {
      var c := NUL;
      while current != |doc|
        invariant current <= |doc|
        invariant StringEnd(doc, current) == StringEnd(doc, old(current))
        invariant c != QUOTE
        decreases |doc| - current
      {
        c := GetNextChar();
        if c == BACKSLASH {
          var escaped := GetNextChar();
        } else if c == QUOTE {
          break;
        }
      }
      return c == QUOTE;
    }

    /** readToken: never backwards, and in place only at the end of the document. Its result is always true. */
    method ReadToken() returns (token: Token)
      requires current <= |doc|
      modifies this`current
      ensures token == Lex(doc, old(current)) && current == token.end
      ensures old(current) <= current <= |doc|
      ensures old(current) < current || (token.kind.EndOfStream? && current == |doc|)
    {
      SkipSpaces();
      var start := current;
      var c := GetNextChar();
      var ok := true;
      var kind := ErrorToken;
      if c == LBRACE { kind := ObjectBegin; }
      else if c == RBRACE { kind := ObjectEnd; }
      else if c == LBRACKET { kind := ArrayBegin; }
      else if c == RBRACKET { kind := ArrayEnd; }
      else if c == QUOTE { kind := StringToken; ok := ReadString(); }
      else if c == SLASH { kind := Comment; ok := ReadComment(); }
      else if IsDigit(c) || c == MINUS { kind := Number; ReadNumber(); }
      else if c == LOWER_T { kind := True; ok := Match(TRUE_TEXT[1..]); }
      else if c == LOWER_F { kind := False; ok := Match(FALSE_TEXT[1..]); }
      else if c == LOWER_N { kind := NullToken; ok := Match(NULL_TEXT[1..]); }
      else if c == COMMA { kind := ArraySeparator; }
      else if c == COLON { kind := MemberSeparator; }
      else if c == NUL { kind := EndOfStream; }
      else { ok := false; }
      if !ok { kind := ErrorToken; }
      token := Token(kind, start, current);
    }

    method SkipCommentTokens() returns (token: Token)
      requires current <= |doc|
      modifies this`current
      ensures token == SkipComments(doc, old(current)) && current == token.end
    {
      token := ReadToken();
      while token.kind.Comment?
        invariant current <= |doc| && current == token.end
        invariant token.kind.Comment? ==> SkipComments(doc, current) == SkipComments(doc, old(current))
        invariant !token.kind.Comment? ==> token == SkipComments(doc, old(current))
        decreases |doc| - current, if token.kind.Comment? then 1 else 0
      {
        token := ReadToken();
      }
    }

    // ----- Errors -----

    method AddError(message: Message, token: Token) returns (ok: bool)
      modifies this`errors
      ensures !ok && errors == old(errors) + [Error(message, token)]
    {
      errors := errors + [Error(message, token)];
      return false;
    }

    method RecoverFromError(skipUntil: Kind) returns (ok: bool)
      requires current <= |doc|
      modifies this`current, this`errors
      ensures !ok && current == Recover(doc, old(current), skipUntil) && errors == old(errors)
    {
      var errorCount := |errors|;
      var skip := ReadToken();
      while skip.kind != skipUntil && !skip.kind.EndOfStream?
        invariant current <= |doc| && current == skip.end && errors == old(errors)
        invariant Recover(doc, old(current), skipUntil) ==
                  if skip.kind == skipUntil || skip.kind.EndOfStream? then current else Recover(doc, current, skipUntil)
        decreases |doc| - current, if skip.kind.EndOfStream? then 0 else 1
      {
        skip := ReadToken();
      }
      errors := errors[..errorCount];
      return false;
    }

    method AddErrorAndRecover(message: Message, token: Token, skipUntil: Kind) returns (ok: bool)
      requires current <= |doc|
      modifies this`current, this`errors
      ensures !ok && current == Recover(doc, old(current), skipUntil)
      ensures errors == old(errors) + [Error(message, token)]
    {
      ok := AddError(message, token);
      ok := RecoverFromError(skipUntil);
    }

    // ----- Decoding tokens -----

    /** decodeUnicodeEscapeSequence, from position pos of the token's text. */
    method DecodeUnicodeEscapeSequence(token: Token, text: bytes, pos: nat, end: nat)
      returns (ok: bool, next: nat, unicode: nat)
      requires pos <= end <= |text|
      modifies this`errors
      ensures match EscapeDigits(text, pos, end)
              case Success(u) => ok && next == pos + 4 && unicode == u && errors == old(errors)
              case Failure(m) => !ok && errors == old(errors) + [Error(m, token)]
    {
      next, unicode := pos, 0;
      if end - pos < 4 {
        ok := AddError(FourDigitsExpected, token);
        return;
      }
      ghost var d := text[pos..pos + 4];
      for index := 0 to 4
        invariant next == pos + index
        invariant forall i :: 0 <= i < index ==> HexValue(d[i]).Some?
        invariant unicode == HexPrefix(d, index)
        invariant errors == old(errors)
      {
        var c := text[next];
        assert c == d[index];
        next := next + 1;
        unicode := unicode * 16;
        if ZERO <= c <= NINE { unicode := unicode + (c - ZERO) as nat; }
        else if LOWER_A <= c <= LOWER_F { unicode := unicode + (c - LOWER_A) as nat + 10; }
        else if UPPER_A <= c <= UPPER_F { unicode := unicode + (c - UPPER_A) as nat + 10; }
        else {
          assert HexValue(d[index]).None?;
          ok := AddError(HexDigitExpected, token);
          return;
        }
      }
      assert HexPrefix(d, 1) == HexValue(d[0]).value;
      assert HexPrefix(d, 2) == HexPrefix(d, 1) * 16 + HexValue(d[1]).value;
      assert HexPrefix(d, 3) == HexPrefix(d, 2) * 16 + HexValue(d[2]).value;
      return true, next, unicode;
    }

    /** The value of the first n digits. */
    static ghost function HexPrefix(d: bytes, n: nat): nat
      requires |d| == 4 && n <= 4
      requires forall i :: 0 <= i < n ==> HexValue(d[i]).Some?
    {
      if n == 0 then 0 else HexPrefix(d, n - 1) * 16 + HexValue(d[n - 1]).value
    }

    method DecodeUnicodeCodePoint(token: Token, text: bytes, pos: nat, end: nat)
      returns (ok: bool, next: nat, unicode: nat)
      requires pos <= end <= |text|
      modifies this`errors
      ensures match EscapedCodePoint(text, pos, end)
              case Success(r) => ok && (unicode, next) == r && errors == old(errors)
              case Failure(m) => !ok && errors == old(errors) + [Error(m, token)]
    {
      ok, next, unicode := DecodeUnicodeEscapeSequence(token, text, pos, end);
      if !ok { return; }
      if unicode >= 0xD800 && unicode <= 0xDBFF {
        if end - next < 6 {
          ok := AddError(SurrogatePairExpected, token);
          return;
        }
        if text[next] == BACKSLASH && text[next + 1] == LOWER_U {
          var surrogatePair;
          ok, next, surrogatePair := DecodeUnicodeEscapeSequence(token, text, next + 2, end);
          if !ok { return; }
          unicode := 0x1_0000 + unicode % 0x400 * 0x400 + surrogatePair % 0x400;
        } else {
          ok := AddError(SecondEscapeExpected, token);
        }
      }
    }

    /** One turn of decodeString's loop. Two of the code's exits are proved to be unreachable. */
    method DecodeChunk(token: Token, text: bytes, pos: nat) returns (ok: bool, out: bytes, next: nat)
      requires IsStringToken(text) && pos < |text| - 1 && StringEnd(text, pos) == Some(|text|)
      modifies this`errors
      ensures match ChunkAt(text, pos)
              case Chunk(o, n) => ok && out == o && next == n && errors == old(errors)
              case Bad(m) => !ok && errors == old(errors) + [Error(m, token)]
    {
      ok, out := true, [];
      var end := |text| - 1;
      var c := text[pos];
      next := pos + 1;
      if c == QUOTE {
        assert false;  // the code leaves its loop here
      } else if c == BACKSLASH {
        if next == end {
          assert false;  // the code reports an empty escape sequence here
        }
        var escape := text[next];
        next := next + 1;
        if escape == QUOTE || escape == SLASH || escape == BACKSLASH { out := [escape]; }
        else if escape == LOWER_B { out := [BS]; }
        else if escape == LOWER_F { out := [FF]; }
        else if escape == LOWER_N { out := [LF]; }
        else if escape == LOWER_R { out := [CR]; }
        else if escape == LOWER_T { out := [TAB]; }
        else if escape == LOWER_U {
          var unicode;
          ok, next, unicode := DecodeUnicodeCodePoint(token, text, next, end);
          if ok { out := CodePointToUtf8(unicode); }
        } else {
          ok := AddError(BadEscape, token);
        }
      } else {
        out := [c];
      }
    }

    /** decodeString(token, decoded). */
    method DecodeStringToken(token: Token) returns (ok: bool, decoded: bytes)
      requires Inside(token, doc) && IsStringToken(Text(doc, token))
      modifies this`errors
      ensures match DecodeString(Text(doc, token))
              case Success(s) => ok && decoded == s && errors == old(errors)
              case Failure(m) => !ok && errors == old(errors) + [Error(m, token)]
    {
      hide ChunkAt;
      var text := Text(doc, token);
      decoded := [];
      var pos := 1;
      if DecodeFrom(text, pos).Success? {
        assert decoded + DecodeFrom(text, pos).value == DecodeFrom(text, pos).value;
      }
      while pos != |text| - 1
        invariant 1 <= pos <= |text| - 1 && StringEnd(text, pos) == Some(|text|)
        invariant match DecodeFrom(text, pos)
                  case Success(rest) => DecodeString(text) == Success(decoded + rest)
                  case Failure(m) => DecodeString(text) == Failure(m)
        invariant errors == old(errors)
        decreases |text| - pos
      {
        var out;
        ghost var was := decoded;
        ok, out, pos := DecodeChunk(token, text, pos);
        if !ok { return; }
        decoded := decoded + out;
        if DecodeFrom(text, pos).Success? {
          assert decoded + DecodeFrom(text, pos).value == was + (out + DecodeFrom(text, pos).value);
        }
      }
      ok := true;
      assert decoded + [] == decoded;
    }

    // ----- The parser -----

    ghost predicate Ready()
      reads this
    {
      current <= |doc| && nodes != [] && stackDepth + 1 == |nodes| && Reaches(root, nodes[|nodes| - 1])
    }

    function Top(): Place
      requires nodes != []
      reads this
    {
      nodes[|nodes| - 1]
    }

    function CurrentValue(): Value
      requires nodes != [] && Reaches(root, Top())
      reads this
    {
      Get(root, Top())
    }

    /** Overwrite *nodes_.top(). */
    method SetCurrentValue(v: Value)
      requires nodes != [] && Reaches(root, Top())
      modifies this`root
      ensures Wrote(old(root), root, Top(), v)
      ensures Reaches(root, Top()) && CurrentValue() == v
    {
      GetSet(root, Top(), v);
      root := Set(root, Top(), v);
    }

    /** The current value ends at the cursor. */
    method SetLimit()
      requires nodes != [] && Reaches(root, Top())
      modifies this`root
      ensures Wrote(old(root), root, Top(), old(CurrentValue()).(limit := current))
    {
      SetCurrentValue(CurrentValue().(limit := current));
    }

    /** Looks up or creates a member of the current value and makes it the current value. */
    method PushMember(k: Key)
      requires nodes != [] && Reaches(root, Top()) && IsContainer(CurrentValue().json)
      modifies this`root, this`nodes
      ensures nodes == old(nodes) + [old(Top()) + [k]]
      ensures Wrote(old(root), root, old(Top()), WithMember(old(CurrentValue()), k))
      ensures Reaches(root, Top()) && CurrentValue() == Fetch(old(CurrentValue()).json.ms, k)
    {
      var place := Top();
      var v := CurrentValue();
      SetCurrentValue(WithMember(v, k));
      MemberCreated(old(root), root, place, v, k);
      nodes := nodes + [place + [k]];
    }

    /** What a returning or throwing call leaves behind, apart from the tree. */
    twostate predicate Settled<T>(s: Status, r: Outcome<T>)
      reads this
    {
      match r
      case Ok(_, p) =>
        s == Returned(true) && current == p && nodes == old(nodes) && errors == old(errors) &&
        stackDepth == old(stackDepth)
      case Fail(_, p, e) =>
        s == Returned(false) && current == p && nodes == old(nodes) && errors == old(errors) + [e] &&
        stackDepth == old(stackDepth) + if e.message.ValueExpected? then 1 else 0
      case Threw =>
        s.Exception? && |nodes| == STACK_LIMIT + 1 && old(nodes) <= nodes
    }

    /**
      readValue reads what the functional parser reads, writes it at the current node and
      touches nothing else of the tree. Its exception leaves the stack as it was where the
      limit struck: below exactly STACK_LIMIT containers.
    */
    method ReadValue() returns (s: Status)
      requires Ready() && |nodes| <= STACK_LIMIT + 1
      modifies this`current, this`root, this`nodes, this`errors, this`stackDepth
      ensures var r := ParseValue(doc, old(current), old(stackDepth), old(CurrentValue()), toDouble);
              Settled(s, r) && (!r.Threw? ==> Wrote(old(root), root, Top(), r.value))
      ensures old(|nodes|) == STACK_LIMIT + 1 ==> s.Exception?
      decreases |doc| - current, 0
    {
      hide ParseMembers, ParseArray, ParseScalar, SkipComments, Set, Get, Reaches;
      if stackDepth >= STACK_LIMIT { return Exception; }
      stackDepth := stackDepth + 1;
      var token := SkipCommentTokens();
      var successful;
      if token.kind.ObjectBegin? {
        s := ReadObject(token);
        if s.Exception? { return; }
        successful := s.ok;
      } else if token.kind.ArrayBegin? {
        s := ReadArray(token);
        if s.Exception? { return; }
        successful := s.ok;
      } else {
        ScalarMessage(doc, token, CurrentValue(), toDouble);
        successful := ReadScalar(token);
        if !successful && IsNoValue(token.kind) {
          return Returned(successful);  // the depth is not counted back here
        }
      }
      stackDepth := stackDepth - 1;
      return Returned(successful);
    }

    /** The cases of readValue's switch that read a single token. */
    method ReadScalar(token: Token) returns (successful: bool)
      requires nodes != [] && Reaches(root, Top()) && Inside(token, doc) && current == token.end
      requires token.kind.Number? ==> token.start < token.end
      requires token.kind.StringToken? ==> IsStringToken(Text(doc, token))
      requires !token.kind.ObjectBegin? && !token.kind.ArrayBegin?
      modifies this`root, this`errors
      ensures var r := ParseScalar(doc, token, old(CurrentValue()), toDouble);
              successful == r.Ok? && Wrote(old(root), root, Top(), r.value) &&
              errors == if r.Ok? then old(errors) else old(errors) + [r.error]
    {
      WroteNothing(root, Top());
      successful := true;
      if token.kind.Number? {
        var decoded := DecodeNumberToken(Text(doc, token), toDouble);
        if decoded.Some? {
          SetCurrentValue(Value(decoded.value, token.start, token.end));
        } else {
          successful := AddError(NotANumber, token);
        }
      } else if token.kind.StringToken? {
        var decoded;
        successful, decoded := DecodeStringToken(token);
        if successful {
          SetCurrentValue(Value(Str(decoded), token.start, token.end));
        }
      } else if token.kind.True? {
        SetCurrentValue(Value(Bool(true), token.start, token.end));
      } else if token.kind.False? {
        SetCurrentValue(Value(Bool(false), token.start, token.end));
      } else if token.kind.NullToken? {
        SetCurrentValue(Value(Null, token.start, token.end));
      } else {
        SetCurrentValue(Value(CurrentValue().json, token.start, token.end));
        successful := AddError(ValueExpected, token);
      }
    }

    /** A member of the current container: create it, push it, read it, pop it. */
    method ReadMember(k: Key) returns (s: Status)
      requires current <= |doc| && 1 <= |nodes| == stackDepth <= STACK_LIMIT
      requires Reaches(root, Top()) && IsContainer(CurrentValue().json)
      modifies this`current, this`root, this`nodes, this`errors, this`stackDepth
      ensures var r := ParseValue(doc, old(current), old(stackDepth), Fetch(old(CurrentValue()).json.ms, k), toDouble);
              Settled(s, r) &&
              (!r.Threw? ==> Wrote(old(root), root, Top(), SetMember(old(CurrentValue()), k, r.value)))
      decreases |doc| - current, 1
    {
      hide ParseValue, Set, Get, Put, Find, Wrote;
      ghost var place, before := Top(), CurrentValue();
      PushMember(k);
      ghost var root1 := root;
      ghost var result := ParseValue(doc, current, stackDepth, CurrentValue(), toDouble);
      s := ReadValue();
      if s.Exception? { return; }
      nodes := nodes[..|nodes| - 1];
      MemberWritten(old(root), root1, root, place, before, k, result.value);
    }

    /** readObject, and the offset that readValue sets after it. */
    method ReadObject(tokenStart: Token) returns (s: Status)
      requires current <= |doc| && 1 <= |nodes| == stackDepth <= STACK_LIMIT && Reaches(root, Top())
      modifies this`current, this`root, this`nodes, this`errors, this`stackDepth
      ensures var r := AsObject(ParseMembers(doc, old(current), old(stackDepth), [], Nil, toDouble), tokenStart.start);
              Settled(s, r) && (!r.Threw? ==> Wrote(old(root), root, Top(), r.value))
      decreases |doc| - current, 3
    {
      hide ParseMembers, ParseValue, SkipComments, Set, Get, Reaches;
      ghost var result := ParseMembers(doc, current, stackDepth, [], Nil, toDouble);
      ghost var v := Value(Object(Nil), tokenStart.start, CurrentValue().limit);
      SetCurrentValue(Value(Object(Nil), tokenStart.start, CurrentValue().limit));
      ghost var root1 := root;
      s := ReadMembers();
      if s.Exception? { return; }
      ghost var root2, w := root, v.(json := Object(result.value));
      WroteTwice(old(root), root1, root2, Top(), v, w);
      WroteReads(root1, root2, Top(), w);
      SetLimit();
      WroteTwice(old(root), root2, root, Top(), w, w.(limit := current));
    }

    /** readObject's loop. */
    method ReadMembers() returns (s: Status)
      requires current <= |doc| && 1 <= |nodes| == stackDepth <= STACK_LIMIT && Reaches(root, Top())
      requires CurrentValue().json == Object(Nil)
      modifies this`current, this`root, this`nodes, this`errors, this`stackDepth
      ensures var r := ParseMembers(doc, old(current), old(stackDepth), [], Nil, toDouble);
              Settled(s, r) &&
              (!r.Threw? ==> Wrote(old(root), root, Top(), old(CurrentValue()).(json := Object(r.value))))
      decreases |doc| - current, 2
    {
      hide NameAt, ParseNamed, ParseValue, SeparatorAt, Recover, Set, Get, Reaches, Wrote;
      ghost var ms, before := Nil, CurrentValue();
      ghost var result := ParseMembers(doc, current, stackDepth, [], Nil, toDouble);
      WroteNothing(root, Top());
      var name: bytes := [];
      while true
        invariant old(current) <= current <= |doc|
        invariant nodes == old(nodes) && errors == old(errors) && stackDepth == old(stackDepth)
        invariant Wrote(old(root), root, Top(), before.(json := Object(ms)))
        invariant ParseMembers(doc, current, stackDepth, name, ms, toDouble) == result
        decreases |doc| - current
      {
        ghost var start := current;
        var naming := ReadName(name);
        if naming.NoMember? { return Returned(true); }
        if naming.BadName? {
          NameMessage(doc, start, name);
          var ok := RecoverFromError(ObjectEnd);
          return Returned(ok);
        }
        name := naming.name;
        ghost var root1, v := root, before.(json := Object(ms));
        WroteReads(old(root), root, Top(), v);
        ghost var named := ParseNamed(doc, current, stackDepth, name, ms, toDouble);
        s := ReadNamed(name);
        if s.Exception? { return; }
        ms := named.value;
        WroteTwice(old(root), root1, root, Top(), v, before.(json := Object(ms)));
        if !s.ok { return; }
        var comma := ReadSeparator();
        if comma.Missing? {
          var ok := AddErrorAndRecover(MissingCommaOrBrace, comma.token, ObjectEnd);
          return Returned(ok);
        }
        if comma.Closing? { return Returned(true); }
      }
    }

    /** The part of readObject's loop before a member's colon; it reports the error, if any. */
    method ReadName(previous: bytes) returns (n: Naming)
      requires current <= |doc|
      modifies this`current, this`errors
      ensures n == NameAt(doc, old(current), previous)
      ensures current == if n.BadName? then n.token.end else n.pos
      ensures errors == if n.BadName? then old(errors) + [Error(n.message, n.token)] else old(errors)
    {
      hide DecodeString, SkipComments;
      var ok;
      var tokenName := SkipCommentTokens();
      if tokenName.kind.ObjectEnd? && previous == [] { return NoMember(current); }
      if tokenName.kind.StringToken? {
        var name;
        ok, name := DecodeStringToken(tokenName);
        if ok { return Member(name, current); }
        n := BadName(errors[|errors| - 1].message, tokenName);
      } else {
        ok := AddError(MissingBraceOrName, tokenName);
        n := BadName(MissingBraceOrName, tokenName);
      }
    }

    /** The part of readObject's loop after a member. */
    method ReadSeparator() returns (s: Separator)
      requires current <= |doc|
      modifies this`current
      ensures s == SeparatorAt(doc, old(current))
      ensures current == if s.Missing? then s.token.end else s.pos
    {
      SkipCommentsAfter(doc, current);
      var comma := ReadToken();
      if !comma.kind.ObjectEnd? && !comma.kind.ArraySeparator? && !comma.kind.Comment? {
        return Missing(comma);
      }
      if comma.kind.Comment? { comma := SkipCommentTokens(); }
      s := if comma.kind.ObjectEnd? then Closing(current) else Another(current);
    }

    /** The part of readObject's loop after a name: the colon and the member's value. */
    method ReadNamed(name: bytes) returns (s: Status)
      requires current <= |doc| && 1 <= |nodes| == stackDepth <= STACK_LIMIT && Reaches(root, Top())
      requires CurrentValue().json.Object?
      modifies this`current, this`root, this`nodes, this`errors, this`stackDepth
      ensures var r := ParseNamed(doc, old(current), old(stackDepth), name, old(CurrentValue()).json.ms, toDouble);
              Settled(s, r) &&
              (!r.Threw? ==> Wrote(old(root), root, Top(), old(CurrentValue()).(json := Object(r.value))))
      decreases |doc| - current, 2
    {
      hide ParseValue, Recover, Lex, Set, Get, Reaches, Put, Find, Fetch;
      WroteNothing(root, Top());
      var ok;
      var colon := ReadToken();
      if !colon.kind.MemberSeparator? {
        ok := AddErrorAndRecover(MissingColon, colon, ObjectEnd);
        return Returned(ok);
      }
      s := ReadMember(NameKey(name));
      if s.Exception? { return; }
      if !s.ok {
        ok := RecoverFromError(ObjectEnd);
        return Returned(ok);
      }
    }

    /** readArray, and the offset that readValue sets after it. */
    method ReadArray(tokenStart: Token) returns (s: Status)
      requires current <= |doc| && 1 <= |nodes| == stackDepth <= STACK_LIMIT && Reaches(root, Top())
      modifies this`current, this`root, this`nodes, this`errors, this`stackDepth
      ensures var r := AsArray(ParseArray(doc, old(current), old(stackDepth), toDouble), tokenStart.start);
              Settled(s, r) && (!r.Threw? ==> Wrote(old(root), root, Top(), r.value))
      decreases |doc| - current, 3
    {
      hide ParseItems, ParseValue, SkipComments, Set, Get, Reaches;
      ghost var result := ParseArray(doc, current, stackDepth, toDouble);
      ghost var v := Value(Array(Nil), tokenStart.start, CurrentValue().limit);
      SetCurrentValue(Value(Array(Nil), tokenStart.start, CurrentValue().limit));
      SkipSpaces();
      if At(doc, current) == RBRACKET {
        var endArray := ReadToken();
        s := Returned(true);
        WroteNothing(root, Top());
        ghost var root2 := root;
        SetLimit();
        WroteTwice(old(root), root2, root, Top(), v, v.(limit := current));
      } else {
        ghost var root1 := root;
        s := ReadItems();
        if s.Exception? { return; }
        ghost var root2, w := root, v.(json := Array(result.value));
        WroteTwice(old(root), root1, root2, Top(), v, w);
        WroteReads(root1, root2, Top(), w);
        SetLimit();
        WroteTwice(old(root), root2, root, Top(), w, w.(limit := current));
      }
    }

    /** readArray's loop. */
    method ReadItems() returns (s: Status)
      requires current <= |doc| && 1 <= |nodes| == stackDepth <= STACK_LIMIT && Reaches(root, Top())
      requires CurrentValue().json == Array(Nil)
      modifies this`current, this`root, this`nodes, this`errors, this`stackDepth
      ensures var r := ParseItems(doc, old(current), old(stackDepth), 0, Nil, toDouble);
              Settled(s, r) &&
              (!r.Threw? ==> Wrote(old(root), root, Top(), old(CurrentValue()).(json := Array(r.value))))
      decreases |doc| - current, 2
    {
      hide ParseValue, ParseArray, SkipComments, Recover, Lex, DecodeString, Set, Get, Reaches, Put, Find, Fetch;
      ghost var ms, before := Nil, CurrentValue();
      ghost var result := ParseItems(doc, current, stackDepth, 0, Nil, toDouble);
      WroteNothing(root, Top());
      var index := 0;
      var ok;
      while true
        invariant 0 <= index && old(current) <= current <= |doc|
        invariant nodes == old(nodes) && errors == old(errors) && stackDepth == old(stackDepth)
        invariant Wrote(old(root), root, Top(), before.(json := Array(ms)))
        invariant ParseItems(doc, current, stackDepth, index, ms, toDouble) == result
        decreases |doc| - current
      {
        ghost var root1, v := root, before.(json := Array(ms));
        WroteReads(old(root), root, Top(), v);
        ghost var item := ParseValue(doc, current, stackDepth, Fetch(ms, Index(index)), toDouble);
        s := ReadMember(Index(index));
        if s.Exception? { return; }
        ms := Put(ms, Index(index), item.value);
        WroteTwice(old(root), root1, root, Top(), v, before.(json := Array(ms)));
        index := index + 1;
        if !s.ok {
          ok := RecoverFromError(ArrayEnd);
          return Returned(ok);
        }
        var token := SkipCommentTokens();
        if !token.kind.ArraySeparator? && !token.kind.ArrayEnd? {
          ok := AddErrorAndRecover(MissingCommaOrBracket, token, ArrayEnd);
          return Returned(ok);
        }
        if token.kind.ArrayEnd? { break; }
      }
      return Returned(true);
    }

    /**
      parse(begin, end, root). Without an exception it returns true exactly when no error was
      recorded, and false with one error, and the caller's value is the functional parser's.
    */
    method Parse(document: bytes, value: Value) returns (s: Status)
      modifies this
      ensures var r := Syntax.Parse(document, value, toDouble);
              match r
              case Ok(v, _) => s == Returned(true) && root == v && errors == []
              case Fail(v, _, e) => s == Returned(false) && root == v && errors == [e]
              case Threw => s.Exception?
      ensures s.Returned? ==> s.ok == Good() && (!s.ok ==> |errors| == 1) && nodes == [[]]
    {
      doc, current, root, nodes, errors, stackDepth := document, 0, value, [[]], [], 0;
      s := ReadValue();
      if s.Exception? { return; }
      assert root == Set(value, [], root);
      var token := SkipCommentTokens();
    }

    /** good(). */
    predicate Good()
      reads this
    {
      |errors| == 0
    }
  }
}
