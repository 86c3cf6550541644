/** What a failed parse reports. */
module Errors {
  import opened Bytes
  import opened Diagnostics
  import opened Values
  import opened Numbers
  import opened Strings
  import opened BadEscapes
  import opened Lexer
  import opened Syntax

  predicate IsValueStart(k: Kind) {
    k.ObjectBegin? || k.ArrayBegin? || k.StringToken? || k.Number? || k.True? || k.False? || k.NullToken?
  }

  /** The error names a token of the document, and what it says of the token is so. */
  ghost predicate Truthful(doc: bytes, e: Error, toDouble: ToDouble) {
    var t := e.token;
    Inside(t, doc) &&
    (exists p: nat :: p <= |doc| && Lex(doc, p) == t) &&
    match e.message
    case ValueExpected => !IsValueStart(t.kind)
    case MissingColon => !t.kind.MemberSeparator?
    case MissingCommaOrBrace => !t.kind.ArraySeparator? && !t.kind.ObjectEnd? && !t.kind.Comment?
    case MissingCommaOrBracket => !t.kind.ArraySeparator? && !t.kind.ArrayEnd? && !t.kind.Comment?
    case MissingBraceOrName => !t.kind.StringToken? && !t.kind.Comment?
    case NotANumber => t.kind.Number? && DecodeNumber(Text(doc, t), toDouble).None?
    case m => t.kind.StringToken? && IsStringToken(Text(doc, t)) && Rejected(Text(doc, t), m)
  }

  /** Tokens that are read one after the other. */
  predicate Chain(doc: bytes, pos: nat, ts: seq<Token>)
    requires pos <= |doc|
    decreases |ts|
  {
    ts == [] || (ts[0] == Lex(doc, pos) && Chain(doc, ts[0].end, ts[1..]))
  }

  /** Recovery reads tokens up to the first one that is wanted, or an end of stream, and stops behind it. */
  lemma {:induction false} RecoverIsFirst(doc: bytes, pos: nat, kind: Kind) returns (ts: seq<Token>)
    requires pos <= |doc|
    ensures ts != [] && Chain(doc, pos, ts) && Recover(doc, pos, kind) == ts[|ts| - 1].end
    ensures ts[|ts| - 1].kind == kind || ts[|ts| - 1].kind.EndOfStream?
    ensures forall i :: 0 <= i < |ts| - 1 ==> ts[i].kind != kind && !ts[i].kind.EndOfStream?
    decreases |doc| - pos
  {
    var t := Lex(doc, pos);
    if t.kind == kind || t.kind.EndOfStream? {
      ts := [t];
      assert Chain(doc, t.end, ts[1..]);
    } else {
      var rest := RecoverIsFirst(doc, t.end, kind);
      ts := [t] + rest;
      assert ts[1..] == rest;
    }
  }

  lemma {:induction false} SkippedTokenIsLexed(doc: bytes, p: nat) returns (q: nat)
    requires p <= |doc|
    ensures q <= |doc| && Lex(doc, q) == SkipComments(doc, p)
    decreases |doc| - p
  {
    if Lex(doc, p).kind.Comment? { q := SkippedTokenIsLexed(doc, Lex(doc, p).end); } else { q := p; }
  }

  lemma BadStringIsTruthful(doc: bytes, p: nat, m: Message, toDouble: ToDouble)
    requires p <= |doc| && Lex(doc, p).kind.StringToken?
    requires DecodeString(Text(doc, Lex(doc, p))) == Failure(m)
    ensures Truthful(doc, Error(m, Lex(doc, p)), toDouble)
  {
    DecodingFailsOnEscapes(Text(doc, Lex(doc, p)), 1);
    DecodingFailsExactly(Text(doc, Lex(doc, p)), m);
  }

  /** Whatever goes wrong, at whatever depth, the one error that is left is a true one. */
  lemma {:induction false} ErrorIsTruthful(doc: bytes, p: nat, depth: nat, before: Value, toDouble: ToDouble)
    requires p <= |doc| && ParseValue(doc, p, depth, before, toDouble).Fail?
    ensures Truthful(doc, ParseValue(doc, p, depth, before, toDouble).error, toDouble)
    decreases |doc| - p, 0
  {
    hide Lex, SkipComments, DecodeString, DecodeNumber, ParseItems, ParseMembers;
    var t := SkipComments(doc, p);
    var q := SkippedTokenIsLexed(doc, p);
    if t.kind.ObjectBegin? {
      MembersErrorIsTruthful(doc, t.end, depth + 1, [], Nil, toDouble);
    } else if t.kind.ArrayBegin? {
      ItemsErrorIsTruthful(doc, SpaceEnd(doc, t.end), depth + 1, 0, Nil, toDouble);
    } else if t.kind.StringToken? {
      BadStringIsTruthful(doc, q, ParseValue(doc, p, depth, before, toDouble).error.message, toDouble);
    }
  }

  lemma {:induction false} ItemsErrorIsTruthful(doc: bytes, p: nat, depth: nat, index: nat, ms: Members, toDouble: ToDouble)
    requires p <= |doc| && ParseItems(doc, p, depth, index, ms, toDouble).Fail?
    ensures Truthful(doc, ParseItems(doc, p, depth, index, ms, toDouble).error, toDouble)
    decreases |doc| - p, 1
  {
    hide Lex, SkipComments, ParseValue, Put, Fetch, Recover;
    var r := ParseValue(doc, p, depth, Fetch(ms, Index(index)), toDouble);
    if r.Fail? {
      ErrorIsTruthful(doc, p, depth, Fetch(ms, Index(index)), toDouble);
    } else {
      var t := SkipComments(doc, r.pos);
      var q := SkippedTokenIsLexed(doc, r.pos);
      if t.kind.ArraySeparator? {
        ItemsErrorIsTruthful(doc, t.end, depth, index + 1, Put(ms, Index(index), r.value), toDouble);
      }
    }
  }

  lemma {:induction false} MembersErrorIsTruthful(doc: bytes, p: nat, depth: nat, name: bytes, ms: Members, toDouble: ToDouble)
    requires p <= |doc| && ParseMembers(doc, p, depth, name, ms, toDouble).Fail?
    ensures Truthful(doc, ParseMembers(doc, p, depth, name, ms, toDouble).error, toDouble)
    decreases |doc| - p, 2
  {
    hide Lex, SkipComments, ParseNamed, NameAt, SeparatorAt, Recover, Truthful;
    var naming := NameAt(doc, p, name);
    if naming.BadName? {
      NameErrorIsTruthful(doc, p, name, toDouble);
    } else {
      var r := ParseNamed(doc, naming.pos, depth, naming.name, ms, toDouble);
      if r.Fail? {
        NamedErrorIsTruthful(doc, naming.pos, depth, naming.name, ms, toDouble);
      } else {
        var next := SeparatorAt(doc, r.pos);
        if next.Missing? {
          SeparatorErrorIsTruthful(doc, r.pos, toDouble);
        } else {
          MembersErrorIsTruthful(doc, next.pos, depth, naming.name, r.value, toDouble);
        }
      }
    }
  }

  lemma SeparatorErrorIsTruthful(doc: bytes, p: nat, toDouble: ToDouble)
    requires p <= |doc| && SeparatorAt(doc, p).Missing?
    ensures Truthful(doc, Error(MissingCommaOrBrace, SeparatorAt(doc, p).token), toDouble)
  {
    hide Lex, SkipComments;
    assert Lex(doc, p) == SeparatorAt(doc, p).token;
  }

  lemma NameErrorIsTruthful(doc: bytes, p: nat, previous: bytes, toDouble: ToDouble)
    requires p <= |doc| && NameAt(doc, p, previous).BadName?
    ensures Truthful(doc, Error(NameAt(doc, p, previous).message, NameAt(doc, p, previous).token), toDouble)
  {
    hide Lex, SkipComments, DecodeString;
    var q := SkippedTokenIsLexed(doc, p);
    if SkipComments(doc, p).kind.StringToken? {
      BadStringIsTruthful(doc, q, NameAt(doc, p, previous).message, toDouble);
    }
  }

  lemma {:induction false} NamedErrorIsTruthful(doc: bytes, p: nat, depth: nat, name: bytes, ms: Members, toDouble: ToDouble)
    requires p <= |doc| && ParseNamed(doc, p, depth, name, ms, toDouble).Fail?
    ensures Truthful(doc, ParseNamed(doc, p, depth, name, ms, toDouble).error, toDouble)
    decreases |doc| - p, 1
  {
    hide Lex, ParseValue, Put, Fetch, Recover;
    var colon := Lex(doc, p);
    if colon.kind.MemberSeparator? {
      ErrorIsTruthful(doc, colon.end, depth, Fetch(ms, NameKey(name)), toDouble);
    }
  }

  // ----- What an error leaves behind -----

  /** The place is behind a token of the kind, or behind an end of stream. */
  ghost predicate StopsBehind(doc: bytes, pos: nat, kind: Kind) {
    exists p: nat :: p <= |doc| && Lex(doc, p).end == pos && (Lex(doc, p).kind == kind || Lex(doc, p).kind.EndOfStream?)
  }

  lemma {:induction false} RecoverStops(doc: bytes, pos: nat, kind: Kind)
    requires pos <= |doc|
    ensures StopsBehind(doc, Recover(doc, pos, kind), kind)
    decreases |doc| - pos
  {
    var t := Lex(doc, pos);
    if t.kind != kind && !t.kind.EndOfStream? { RecoverStops(doc, t.end, kind); }
  }

  /** An array with an error in it is left behind its closing bracket, with all elements up to the error. */
  lemma {:induction false} FailedArray(doc: bytes, p: nat, depth: nat, index: nat, ms: Members, toDouble: ToDouble, i: nat)
    requires p <= |doc| && !ParseItems(doc, p, depth, index, ms, toDouble).Threw?
    ensures var r := ParseItems(doc, p, depth, index, ms, toDouble);
            (r.Fail? ==> StopsBehind(doc, r.pos, ArrayEnd)) &&
            (i < index ==> Find(r.value, Index(i)) == Find(ms, Index(i))) &&
            Find(r.value, Index(index)).Some?
    decreases |doc| - p
  {
    hide Lex, SkipComments, ParseValue, Put, Fetch, Recover, StopsBehind, Find;
    var k := Index(index);
    var r := ParseValue(doc, p, depth, Fetch(ms, k), toDouble);
    FindPut(ms, k, r.value, Index(i));
    FindPut(ms, k, r.value, k);
    var next := Put(ms, k, r.value);
    if r.Fail? {
      RecoverStops(doc, r.pos, ArrayEnd);
    } else {
      var t := SkipComments(doc, r.pos);
      if t.kind.ArraySeparator? {
        FailedArray(doc, t.end, depth, index + 1, next, toDouble, i);
        FailedArray(doc, t.end, depth, index + 1, next, toDouble, index);
      } else if !t.kind.ArrayEnd? {
        RecoverStops(doc, t.end, ArrayEnd);
      }
    }
  }

  /** An object with an error in it is left behind its closing brace, and no name that it had is lost. */
  lemma {:induction false} FailedObject(doc: bytes, p: nat, depth: nat, name: bytes, ms: Members, toDouble: ToDouble, k: Key)
    requires p <= |doc| && !ParseMembers(doc, p, depth, name, ms, toDouble).Threw?
    ensures var r := ParseMembers(doc, p, depth, name, ms, toDouble);
            (r.Fail? ==> StopsBehind(doc, r.pos, ObjectEnd)) &&
            (Find(ms, k).Some? ==> Find(r.value, k).Some?)
    decreases |doc| - p, 1
  {
    hide Lex, SkipComments, ParseNamed, NameAt, SeparatorAt, Recover, StopsBehind, Find;
    var naming := NameAt(doc, p, name);
    if naming.BadName? {
      RecoverStops(doc, naming.token.end, ObjectEnd);
    } else if naming.Member? {
      FailedMember(doc, naming.pos, depth, naming.name, ms, toDouble, k);
      var r := ParseNamed(doc, naming.pos, depth, naming.name, ms, toDouble);
      if r.Ok? {
        var next := SeparatorAt(doc, r.pos);
        if next.Missing? {
          RecoverStops(doc, next.token.end, ObjectEnd);
        } else if next.Another? {
          FailedObject(doc, next.pos, depth, naming.name, r.value, toDouble, k);
        }
      }
    }
  }

  lemma FailedMember(doc: bytes, p: nat, depth: nat, name: bytes, ms: Members, toDouble: ToDouble, k: Key)
    requires p <= |doc| && !ParseNamed(doc, p, depth, name, ms, toDouble).Threw?
    ensures var r := ParseNamed(doc, p, depth, name, ms, toDouble);
            (r.Fail? ==> StopsBehind(doc, r.pos, ObjectEnd)) &&
            (Find(ms, k).Some? ==> Find(r.value, k).Some?) &&
            (Lex(doc, p).kind.MemberSeparator? ==> Find(r.value, NameKey(name)).Some?)
  {
    hide Lex, SkipComments, ParseValue, Recover, StopsBehind, Put, Fetch, Find;
    var colon := Lex(doc, p);
    if !colon.kind.MemberSeparator? {
      RecoverStops(doc, colon.end, ObjectEnd);
    } else {
      var r := ParseValue(doc, colon.end, depth, Fetch(ms, NameKey(name)), toDouble);
      FindPut(ms, NameKey(name), r.value, k);
      FindPut(ms, NameKey(name), r.value, NameKey(name));
      if r.Fail? { RecoverStops(doc, r.pos, ObjectEnd); }
    }
  }
}
