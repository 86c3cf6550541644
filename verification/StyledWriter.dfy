/**
  Json::StyledWriter for values without comments: it builds up its document by looking at what
  it has written and at its indentation, and arrives at the layout of module Layouts.
*/
module StyledWriters {
  import opened Bytes
  import opened Values
  import opened Strings
  import opened Numbers
  import opened Output
  import opened Layouts
  import LayoutLaws
  import opened FastWriters

  /** One entry for each element of an array without nested containers. */
  ghost predicate Collected(ms: Members, childValues: seq<bytes>, realText: RealText) {
    |childValues| == ArraySize(ms) && IsFlat(ms) &&
    forall i :: 0 <= i < ArraySize(ms) ==> childValues[i] == ValueText(Fetch(ms, Index(i)).json, realText)
  }

  lemma JoinedNext(ms: Members, n: nat, realText: RealText)
    requires IsFlat(ms) && n < ArraySize(ms)
    ensures Joined(ms, 0, realText) == []
    ensures Joined(ms, n + 1, realText) ==
            Joined(ms, n, realText) + Separator(n) + ValueText(Fetch(ms, Index(n)).json, realText)
  {}

  /** Whether a new line is needed depends on what was written last only. */
  lemma BreakBehind(before: bytes, rows: bytes, ind: bytes)
    requires rows != []
    ensures Break(before + rows, ind) == Break(rows, ind)
  {}

  lemma RowsNext(ms: Members, i: nat, ind: bytes, realText: RealText)
    requires i < ArraySize(ms)
    ensures Rows(ms, i, ind, realText) ==
            [LF] + ind + Laid(Fetch(ms, Index(i)).json, ind, realText) +
            if i + 1 == ArraySize(ms) then [] else [COMMA] + Rows(ms, i + 1, ind, realText)
  {}

  lemma MemberRowsNext(ms: Members, ind: bytes, realText: RealText)
    requires ms.Cons?
    ensures MemberRows(ms, ind, realText) ==
            ([LF] + ind + KeyText(ms.key, true).text + [SPACE, COLON, SPACE] + Laid(ms.value.json, ind, realText)) +
            if ms.tail.Nil? then [] else [COMMA] + MemberRows(ms.tail, ind, realText)
  {}

  /** Adding to a 32-bit length. */
  lemma SumWraps(a: nat, b: nat)
    ensures (a % TWO_TO_THE_32 + b) % TWO_TO_THE_32 == (a + b) % TWO_TO_THE_32
  {}

  class StyledWriter {
    var document: bytes
    var childValues: seq<bytes>
    var indentString: bytes
    var addChildValues: bool
    const realText: RealText

    constructor (realText: RealText)
      ensures this.realText == realText
    {
      this.realText := realText;
      document, childValues, indentString, addChildValues := [], [], [], false;
    }

    /** The indentation consists of blanks, and a value that begins here needs no new line. */
    ghost predicate AtValue()
      reads this`document, this`indentString
    {
      (forall c :: c in indentString ==> c == SPACE) &&
      (if document == [] then indentString == [] else document[|document| - 1] == SPACE)
    }

    /** The indentation consists of blanks, and what was written last asks for a new line. */
    ghost predicate AtRow()
      reads this`document, this`indentString
    {
      indentString != [] && (forall c :: c in indentString ==> c == SPACE) &&
      document != [] && document[|document| - 1] != SPACE && document[|document| - 1] != LF
    }

    /** write. */
    method Write(root: Json) returns (text: bytes)
      requires WellFormed(root)
      modifies this
      ensures text == Laid(root, [], realText) + [LF] && LayoutLaws.WellLaid(text)
    {
      document := [];
      addChildValues := false;
      indentString := [];
      WriteValue(root);
      document := document + [LF];
      LayoutLaws.DocumentIsWellLaid(root, realText);
      return document;
    }

    method PushValue(value: bytes)
      modifies this`document, this`childValues
      ensures addChildValues ==> document == old(document) && childValues == old(childValues) + [value]
      ensures !addChildValues ==> document == old(document) + value && childValues == old(childValues)
    {
      if addChildValues {
        childValues := childValues + [value];
      } else {
        document := document + value;
      }
    }

    method WriteIndent()
      modifies this`document
      ensures document == old(document) + Break(old(document), indentString)
      ensures old(AtRow()) ==> document == old(document) + ([LF] + indentString) && AtValue()
    {
      if |document| > 0 {
        var last := document[|document| - 1];
        if last == SPACE { return; }
        if last != LF { document := document + [LF]; }
      }
      document := document + indentString;
      assert indentString != [] ==> document[|document| - 1] in indentString;
    }

    method WriteWithIndent(value: bytes)
      modifies this`document
      ensures document == old(document) + Break(old(document), indentString) + value
      ensures old(AtValue()) ==> document == old(document) + value
      ensures old(AtRow()) ==> document == old(document) + ([LF] + indentString + value)
    {
      WriteIndent();
      document := document + value;
    }

    method Indent()
      modifies this`indentString
      ensures indentString == old(indentString) + INDENT
    {
      indentString := indentString + INDENT;
    }

    method Unindent()
      requires |indentString| >= |INDENT|
      modifies this`indentString
      ensures indentString == old(indentString)[..|old(indentString)| - |INDENT|]
    {
      indentString := indentString[..|indentString| - |INDENT|];
    }

    /**
      writeValue. While children are collected it adds one entry and leaves the document alone;
      otherwise the document goes on with the layout of the value. The indentation is restored.
    */
    method WriteValue(value: Json)
      requires WellFormed(value)
      requires addChildValues ==> !IsNested(value)
      requires !addChildValues ==> AtValue()
      modifies this`document, this`childValues, this`indentString, this`addChildValues
      ensures addChildValues == old(addChildValues) && indentString == old(indentString)
      ensures addChildValues ==> document == old(document)
      ensures addChildValues ==> childValues == old(childValues) + [ValueText(value, realText)]
      ensures !addChildValues ==> document == old(document) + Laid(value, indentString, realText)
      decreases Weight(value), 3
    {
      match value {
        case Null => PushValue(NULL_TEXT);
        case Int(i) => var text := ValueToString(i); PushValue(text);
        case UInt(u) => var text := ValueToString(u); PushValue(text);
        case Real(r) => PushValue(realText(r));
        case NullStr => PushValue([]);
        case Str(s) => var text := ValueToQuotedStringN(s); PushValue(text);
        case Bool(b) => PushValue(if b then TRUE_TEXT else FALSE_TEXT);
        case Array(ms) =>
          if ArraySize(ms) == 0 {
            PushValue([LBRACKET, RBRACKET]);
          } else {
            WriteArrayValue(ms);
          }
        case Object(ms) =>
          if ms.Nil? {
            PushValue([LBRACE, RBRACE]);
          } else {
            WriteObjectValue(ms);
          }
      }
    }

    method WriteObjectValue(ms: Members)
      requires ms.Cons? && Sorted(ms) && NameKeys(ms) && WellFormedMembers(ms)
      requires !addChildValues && AtValue()
      modifies this`document, this`childValues, this`indentString, this`addChildValues
      ensures !addChildValues && indentString == old(indentString)
      ensures document == old(document) + Laid(Object(ms), indentString, realText)
      decreases MembersWeight(ms), 2
    {
      hide MemberRows, Break, Sorted, NameKeys, WellFormedMembers;
      WriteWithIndent([LBRACE]);
      ghost var start := document;
      Indent();
      WriteMemberRows(ms);
      Unindent();
      BreakBehind(start, MemberRows(ms, indentString + INDENT, realText), indentString);
      WriteWithIndent([RBRACE]);
    }

    method WriteMemberRows(ms: Members)
      requires ms.Cons? && Sorted(ms) && NameKeys(ms) && WellFormedMembers(ms)
      requires !addChildValues && AtRow()
      modifies this`document, this`childValues, this`indentString, this`addChildValues
      ensures !addChildValues && indentString == old(indentString)
      ensures document == old(document) + MemberRows(ms, indentString, realText)
      decreases MembersWeight(ms), 1
    {
      hide MemberRows, Laid, KeyText, Sorted, NameKeys, WellFormedMembers, MembersWeight, Weight;
      var members := MemberNames(ms);
      var it := 0;
      while true
        invariant 0 <= it < |members|
        invariant !addChildValues && indentString == old(indentString) && AtRow()
        invariant Drop(ms, it).Cons?
        invariant document + MemberRows(Drop(ms, it), indentString, realText) ==
                  old(document) + MemberRows(ms, indentString, realText)
        decreases |members| - it
      {
        MemberFound(ms, it);
        MemberRowsNext(Drop(ms, it), indentString, realText);
        var name := members[it];
        var childValue := Fetch(ms, NameKey(name)).json;
        WriteMember(name, childValue);
        it := it + 1;
        if it == |members| {
          assert Drop(ms, it).Nil?;
          break;
        }
        NameOfEntry(ms, it);
        document := document + [COMMA];
      }
    }

    /** One member: its name on a new line, a colon, its value. */
    method WriteMember(name: bytes, childValue: Json)
      requires WellFormed(childValue) && !addChildValues && AtRow()
      modifies this`document, this`childValues, this`indentString, this`addChildValues
      ensures !addChildValues && indentString == old(indentString)
      ensures document == old(document) + ([LF] + indentString + KeyText(Name(name), true).text + [SPACE, COLON, SPACE] +
                          Laid(childValue, indentString, realText))
      decreases Weight(childValue), 4
    {
      hide Break, Laid, Quoted, CString;
      var text := ValueToQuotedString(name);
      WriteWithIndent(text);
      document := document + [SPACE, COLON, SPACE];
      WriteValue(childValue);
    }

    /** isMultineArray, in the 32-bit arithmetic of ArrayIndex. */
    method IsMultilineArray(ms: Members) returns (isMultiLine: bool)
      requires ms.Cons? && ArraySize(ms) > 0 && WellFormedMembers(ms) && !addChildValues
      modifies this`document, this`childValues, this`indentString, this`addChildValues
      ensures !addChildValues && document == old(document) && indentString == old(indentString)
      ensures childValues == [] || Collected(ms, childValues, realText)
      ensures !isMultiLine ==> Collected(ms, childValues, realText)
      ensures isMultiLine <==> !FitsOneLine(ms, realText)
      decreases MembersWeight(ms), 1
    {
      var size := ArraySize(ms);
      isMultiLine := size * 3 % TWO_TO_THE_32 >= RIGHT_MARGIN;
      childValues := [];
      var index := 0;
      while index < size && !isMultiLine
        invariant 0 <= index <= size
        invariant !isMultiLine ==> forall i :: 0 <= i < index ==> !IsNested(Fetch(ms, Index(i)).json)
        invariant !isMultiLine ==> size * 3 % TWO_TO_THE_32 < RIGHT_MARGIN
        invariant isMultiLine ==> !FitsOneLine(ms, realText)
      {
        isMultiLine := IsNested(Fetch(ms, Index(index)).json);
        index := index + 1;
      }
      if !isMultiLine {
        var lineLength := MeasureLine(ms);
        isMultiLine := lineLength >= RIGHT_MARGIN;
      }
    }

    /** The part of isMultineArray that collects the elements and adds up their line. */
    method MeasureLine(ms: Members) returns (lineLength: nat)
      requires ms.Cons? && ArraySize(ms) > 0 && WellFormedMembers(ms) && !addChildValues
      requires IsFlat(ms) && childValues == []
      modifies this`document, this`childValues, this`indentString, this`addChildValues
      ensures !addChildValues && document == old(document) && indentString == old(indentString)
      ensures Collected(ms, childValues, realText)
      ensures lineLength == |OneLine(ms, realText)| % TWO_TO_THE_32
      decreases MembersWeight(ms), 0
    {
      hide ValueText, WellFormedMembers, Fetch, IsNested, ArraySize;
      var size := ArraySize(ms);
      addChildValues := true;
      lineLength := (4 + (size - 1) * 2) % TWO_TO_THE_32;
      ghost var separators := 0;
      var index := 0;
      while index < size
        invariant 0 <= index <= size == |childValues| + (size - index)
        invariant addChildValues && document == old(document) && indentString == old(indentString)
        invariant forall i :: 0 <= i < index ==> childValues[i] == ValueText(Fetch(ms, Index(i)).json, realText)
        invariant separators == if index == 0 then 0 else index - 1
        invariant lineLength == (4 + (size - 1 - separators) * 2 + |Joined(ms, index, realText)|) % TWO_TO_THE_32
      {
        FetchWeight(ms, Index(index));
        FetchWellFormed(ms, Index(index));
        WriteValue(Fetch(ms, Index(index)).json);
        SumWraps(4 + (size - 1 - separators) * 2 + |Joined(ms, index, realText)|, |childValues[index]|);
        lineLength := (lineLength + |childValues[index]|) % TWO_TO_THE_32;
        separators := index;
        index := index + 1;
      }
      addChildValues := false;
    }

    method WriteArrayValue(ms: Members)
      requires ArraySize(ms) > 0 && WellFormedMembers(ms)
      requires !addChildValues && AtValue()
      modifies this`document, this`childValues, this`indentString, this`addChildValues
      ensures !addChildValues && indentString == old(indentString)
      ensures document == old(document) + Laid(Array(ms), indentString, realText)
      decreases MembersWeight(ms), 2
    {
      hide Rows, Break, FitsOneLine, Joined, WellFormedMembers;
      var isArrayMultiLine := IsMultilineArray(ms);
      if isArrayMultiLine {
        WriteWithIndent([LBRACKET]);
        ghost var start := document;
        Indent();
        WriteRows(ms);
        Unindent();
        BreakBehind(start, Rows(ms, 0, indentString + INDENT, realText), indentString);
        WriteWithIndent([RBRACKET]);
      } else {
        assert |childValues| == ArraySize(ms);
        document := document + [LBRACKET, SPACE];
        WriteLine(ms);
        document := document + [SPACE, RBRACKET];
      }
    }

    /** One element on each line, from the collected entries if there are any. */
    method WriteRows(ms: Members)
      requires ms.Cons? && ArraySize(ms) > 0 && WellFormedMembers(ms)
      requires !addChildValues && AtRow()
      requires childValues == [] || Collected(ms, childValues, realText)
      modifies this`document, this`childValues, this`indentString, this`addChildValues
      ensures !addChildValues && indentString == old(indentString)
      ensures document == old(document) + Rows(ms, 0, indentString, realText)
      decreases MembersWeight(ms), 1
    {
      hide ArraySize, Rows, Laid, Fetch, WellFormedMembers, Collected;
      var size := ArraySize(ms);
      var hasChildValue := childValues != [];
      var index := 0;
      while true
        invariant 0 <= index < size == ArraySize(ms)
        invariant !addChildValues && indentString == old(indentString) && AtRow()
        invariant document + Rows(ms, index, indentString, realText) == old(document) + Rows(ms, 0, indentString, realText)
        invariant hasChildValue ==> Collected(ms, childValues, realText)
        decreases size - index
      {
        RowsNext(ms, index, indentString, realText);
        WriteRow(ms, index, hasChildValue);
        index := index + 1;
        if index == size { break; }
        document := document + [COMMA];
      }
    }

    /** One element on lines of its own. */
    method WriteRow(ms: Members, index: nat, hasChildValue: bool)
      requires index < ArraySize(ms) && ms.Cons? && WellFormedMembers(ms)
      requires !addChildValues && AtRow()
      requires hasChildValue ==> Collected(ms, childValues, realText)
      modifies this`document, this`childValues, this`indentString, this`addChildValues
      ensures !addChildValues && indentString == old(indentString)
      ensures hasChildValue ==> childValues == old(childValues)
      ensures document == old(document) + ([LF] + indentString + Laid(Fetch(ms, Index(index)).json, indentString, realText))
      decreases MembersWeight(ms), 0
    {
      hide ArraySize, ValueText, IsNested, Break, Fetch;
      var childValue := Fetch(ms, Index(index)).json;
      FetchWeight(ms, Index(index));
      FetchWellFormed(ms, Index(index));
      if hasChildValue {
        WriteWithIndent(childValues[index]);
      } else {
        WriteIndent();
        WriteValue(childValue);
      }
    }

    /** All elements on one line, from the collected entries. */
    method WriteLine(ms: Members)
      requires ArraySize(ms) > 0 && Collected(ms, childValues, realText)
      modifies this`document
      ensures document == old(document) + Joined(ms, ArraySize(ms), realText)
    {
      hide ArraySize, ValueText, IsFlat, Joined, Fetch;
      var size := ArraySize(ms);
      JoinedNext(ms, 0, realText);
      for index := 0 to size
        invariant document == old(document) + Joined(ms, index, realText)
      {
        JoinedNext(ms, index, realText);
        if index > 0 { document := document + [COMMA, SPACE]; }
        assert document == old(document) + (Joined(ms, index, realText) + Separator(index));
        document := document + childValues[index];
      }
    }
  }
}
