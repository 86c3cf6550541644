/** Json::FastWriter with its default options. */
module FastWriters {
  import opened Bytes
  import opened Values
  import opened Strings
  import opened Numbers
  import opened Texts
  import opened Output

  /** getMemberNames. */
  function MemberNames(ms: Members): (names: seq<bytes>)
    requires NameKeys(ms)
    ensures |names| == Count(ms)
  {
    match ms
    case Nil => []
    case Cons(k, _, t) => [k.name] + MemberNames(t)
  }

  lemma {:induction false} NameOfEntry(ms: Members, n: nat)
    requires NameKeys(ms) && n < Count(ms)
    ensures Drop(ms, n).Cons? && Drop(ms, n).key == Name(MemberNames(ms)[n])
    ensures |MemberNames(ms)[n]| < NAME_LIMIT
  {
    if n > 0 { NameOfEntry(ms.tail, n - 1); }
  }

  lemma {:induction false} AboveLater(k: Key, ms: Members, j: nat)
    requires Above(k, ms) && j < Count(ms)
    ensures Drop(ms, j).Cons? && KeyLess(k, Drop(ms, j).key)
  {
    if j > 0 { AboveLater(k, ms.tail, j - 1); }
  }

  /** The names are listed in the order of the dictionary. */
  lemma {:induction false} NamesAscend(ms: Members, i: nat, j: nat)
    requires Sorted(ms) && NameKeys(ms) && i < j < Count(ms)
    ensures Lexicographic(MemberNames(ms)[i], MemberNames(ms)[j])
  {
    if i > 0 {
      NamesAscend(ms.tail, i - 1, j - 1);
    } else {
      NameOfEntry(ms, j);
      AboveLater(ms.key, ms.tail, j - 1);
      BytesLessIsLexicographic(MemberNames(ms)[i], MemberNames(ms)[j]);
    }
  }

  lemma {:induction false} DropWeight(ms: Members, n: nat)
    requires n < Count(ms)
    ensures Drop(ms, n).Cons? && Weight(Drop(ms, n).value.json) < MembersWeight(ms)
  {
    if n > 0 { DropWeight(ms.tail, n - 1); }
  }

  /** The n-th of the names finds the n-th entry. */
  lemma MemberFound(ms: Members, n: nat)
    requires Sorted(ms) && NameKeys(ms) && WellFormedMembers(ms) && n < Count(ms)
    ensures Drop(ms, n).Cons? && Drop(ms, n).key == Name(MemberNames(ms)[n])
    ensures Fetch(ms, NameKey(MemberNames(ms)[n])) == Drop(ms, n).value
    ensures Drop(ms, n + 1) == Drop(ms, n).tail
    ensures Weight(Drop(ms, n).value.json) < MembersWeight(ms)
    ensures WellFormed(Drop(ms, n).value.json)
  {
    NameOfEntry(ms, n);
    NameKeyIsName(MemberNames(ms)[n]);
    EntryFound(ms, n);
    DropStep(ms, n);
    DropWeight(ms, n);
    FetchWellFormed(ms, Name(MemberNames(ms)[n]));
  }

  /** The text of an array from element i on is a comma, the element and the rest. */
  lemma ItemText(ms: Members, i: nat, realText: RealText)
    requires i < ArraySize(ms)
    ensures Flat(ItemTokens(ms, i, End, false, realText)) ==
            (if i > 0 then [COMMA] else []) + Flat(Tokens(Fetch(ms, Index(i)).json, End, false, realText)) +
            Flat(ItemTokens(ms, i + 1, End, false, realText))
  {
    hide Tokens, Flat, Fetch;
    var j, rest := Fetch(ms, Index(i)).json, ItemTokens(ms, i + 1, End, false, realText);
    TokensThen(j, rest, false, realText);
    FlatThen(Tokens(j, End, false, realText), rest);
    FlatMore(COMMA_LEXEME, Tokens(j, rest, false, realText));
  }

  /** The text of an object from an entry on is a comma, the name, a colon, the value and the rest. */
  lemma MemberText(ms: Members, first: bool, realText: RealText)
    requires ms.Cons?
    ensures Flat(MemberTokens(ms, first, End, false, realText)) ==
            (if first then [] else [COMMA]) + KeyText(ms.key, false).text + [COLON] +
            Flat(Tokens(ms.value.json, End, false, realText)) + Flat(MemberTokens(ms.tail, false, End, false, realText))
  {
    hide Quoted, KeyText, Tokens, Flat;
    var j, rest := ms.value.json, MemberTokens(ms.tail, false, End, false, realText);
    var value := Tokens(j, rest, false, realText);
    TokensThen(j, rest, false, realText);
    FlatThen(Tokens(j, End, false, realText), rest);
    var named := More(COLON_LEXEME, value);
    var member := More(KeyText(ms.key, false), named);
    FlatMore(COLON_LEXEME, value);
    FlatMore(KeyText(ms.key, false), named);
    FlatMore(COMMA_LEXEME, member);
  }

  lemma FlatMore(l: Lexeme, ls: Lexemes)
    ensures Flat(More(l, ls)) == l.text + Flat(ls)
  {}

  lemma CloseText(ms: Members, realText: RealText)
    ensures Flat(ItemTokens(ms, ArraySize(ms), End, false, realText)) == [RBRACKET]
    ensures Flat(MemberTokens(Nil, false, End, false, realText)) == [RBRACE]
    ensures Flat(MemberTokens(Nil, true, End, false, realText)) == [RBRACE]
    ensures Drop(ms, Count(ms)).Nil?
  {}

  class FastWriter {
    var document: bytes
    const realText: RealText

    constructor (realText: RealText)
      ensures this.realText == realText
    {
      this.realText := realText;
      document := [];
    }

    /** write: exactly the tokens of the value, with nothing between them, and a line feed. */
    method Write(root: Json) returns (text: bytes)
      requires WellFormed(root)
      modifies this
      ensures text == Flat(Tokens(root, End, false, realText)) + [LF]
    {
      document := [];
      WriteValue(root);
      document := document + [LF];
      return document;
    }

    method WriteValue(value: Json)
      requires WellFormed(value)
      modifies this`document
      ensures document == old(document) + Flat(Tokens(value, End, false, realText))
      decreases Weight(value), 1
    {
      match value {
        case Null => document := document + NULL_TEXT;
        case Int(i) => var text := ValueToString(i); document := document + text;
        case UInt(u) => var text := ValueToString(u); document := document + text;
        case Real(r) => document := document + realText(r);
        case NullStr =>
        case Str(s) => var text := ValueToQuotedStringN(s); document := document + text;
        case Bool(b) => document := document + if b then TRUE_TEXT else FALSE_TEXT;
        case Array(ms) =>
          document := document + [LBRACKET];
          WriteItems(ms);
        case Object(ms) =>
          document := document + [LBRACE];
          WriteMembers(ms);
      }
    }

    method WriteItems(ms: Members)
      requires WellFormedMembers(ms)
      modifies this`document
      ensures document == old(document) + Flat(ItemTokens(ms, 0, End, false, realText))
      decreases MembersWeight(ms), 2
    {
      hide ItemTokens, Tokens, Flat;
      var size := ArraySize(ms);
      var index := 0;
      while index < size
        invariant 0 <= index <= size
        invariant document + Flat(ItemTokens(ms, index, End, false, realText)) ==
                  old(document) + Flat(ItemTokens(ms, 0, End, false, realText))
      {
        ItemText(ms, index, realText);
        FetchWeight(ms, Index(index));
        FetchWellFormed(ms, Index(index));
        if index > 0 { document := document + [COMMA]; }
        WriteValue(Fetch(ms, Index(index)).json);
        index := index + 1;
      }
      CloseText(ms, realText);
      document := document + [RBRACKET];
    }

    method WriteMembers(ms: Members)
      requires Sorted(ms) && NameKeys(ms) && WellFormedMembers(ms)
      modifies this`document
      ensures document == old(document) + Flat(MemberTokens(ms, true, End, false, realText))
      decreases MembersWeight(ms), 2
    {
      hide MemberTokens, Tokens, Flat, Quoted, Sorted, NameKeys, WellFormedMembers;
      var members := MemberNames(ms);
      var it := 0;
      while it < |members|
        invariant 0 <= it <= |members|
        invariant document + Flat(MemberTokens(Drop(ms, it), it == 0, End, false, realText)) ==
                  old(document) + Flat(MemberTokens(ms, true, End, false, realText))
      {
        MemberFound(ms, it);
        MemberText(Drop(ms, it), it == 0, realText);
        var name := members[it];
        if it > 0 { document := document + [COMMA]; }
        var text := ValueToQuotedStringN(name);
        document := document + text + [COLON];
        WriteValue(Fetch(ms, NameKey(name)).json);
        it := it + 1;
      }
      CloseText(ms, realText);
      document := document + [RBRACE];
    }
  }
}
