/**
  Reading an EIP-712 type string back (rust/src/eip712.rs): where names and types hold no space, comma or parenthesis,
  the string lists exactly the primary type and its references, each with its fields' types and names in order.
*/
module TypeText {
  import opened Wrappers
  import opened Text
  import opened TypeGraph

  type Shape = (string, seq<Field>)

  /** `type name`. */
  function ReadField(s: string): Option<Field> {
    match Find(s, ' ')
    case None => None
    case Some(i) => Some(Field(s[i + 1..], s[..i]))
  }

  /** Fields between commas. */
  function ReadFields(s: string): Option<seq<Field>>
    decreases |s|
  {
    if s == "" then Some([])
    else
      match Find(s, ',')
      case None => (match ReadField(s) case None => None case Some(f) => Some([f]))
      case Some(i) =>
        match (ReadField(s[..i]), ReadFields(s[i + 1..]))
        case (Some(f), Some(rest)) => Some([f] + rest)
        case _ => None
  }

  /** `Name(fields)` in front, and what follows. */
  function ReadType(s: string): (r: Option<(Shape, string)>)
    ensures r.Some? ==> |r.value.1| < |s|
  {
    match (Find(s, '('), Find(s, ')'))
    case (Some(open), Some(close)) =>
      if close < open then None
      else
        (match ReadFields(s[open + 1..close])
         case None => None
         case Some(fields) => Some(((s[..open], fields), s[close + 1..])))
    case _ => None
  }

  function ReadTypes(s: string): Option<seq<Shape>>
    decreases |s|
  {
    if s == "" then Some([])
    else
      match ReadType(s)
      case None => None
      case Some((first, rest)) =>
        match ReadTypes(rest)
        case None => None
        case Some(others) => Some([first] + others)
  }

  // ---- what is written reads back ----

  predicate Plain(s: string) {
    ' ' !in s && ',' !in s && '(' !in s && ')' !in s
  }

  predicate PlainField(f: Field) {
    Plain(f.name) && Plain(f.typ)
  }

  predicate PlainFields(fields: seq<Field>) {
    forall i :: 0 <= i < |fields| ==> PlainField(fields[i])
  }

  lemma FieldReadsBack(f: Field)
    requires PlainField(f)
    ensures ReadField(FieldText(f)) == Some(f)
    ensures ',' !in FieldText(f) && '(' !in FieldText(f) && ')' !in FieldText(f) && FieldText(f) != ""
  {
    var s := FieldText(f);
    assert s[..|f.typ|] == f.typ && s[|f.typ|] == ' ' && s[|f.typ| + 1..] == f.name;
    FindIs(s, ' ', |f.typ|);
  }

  /** The writer adds fields at the end, the reader takes them from the front. */
  lemma {:induction false} FirstField(fields: seq<Field>)
    requires |fields| > 1
    ensures FieldTexts(fields) == FieldText(fields[0]) + ("," + FieldTexts(fields[1..]))
  {
    hide FieldText;
    var front, last := fields[..|fields| - 1], fields[|fields| - 1];
    if |front| > 1 {
      FirstField(front);
      assert front[1..] == fields[1..][..|fields| - 2] && fields[1..][|fields| - 2] == last;
    } else {
      assert front == [fields[0]] && fields[1..] == [last];
    }
  }

  lemma {:induction false} FieldsReadBack(fields: seq<Field>)
    requires PlainFields(fields)
    ensures ReadFields(FieldTexts(fields)) == Some(fields)
    ensures '(' !in FieldTexts(fields) && ')' !in FieldTexts(fields)
  {
    hide FieldText, ReadField, ReadFields;
    if fields == [] {
      NoFields();
    } else if |fields| == 1 {
      FieldReadsBack(fields[0]);
      OneFieldRead(FieldText(fields[0]));
      assert [fields[0]] == fields;
    } else {
      FirstField(fields);
      FieldReadsBack(fields[0]);
      FieldsReadBack(fields[1..]);
      hide FieldTexts;
      FirstFieldRead(FieldText(fields[0]), FieldTexts(fields[1..]));
      NotBetween('(', FieldText(fields[0]), ',', FieldTexts(fields[1..]));
      NotBetween(')', FieldText(fields[0]), ',', FieldTexts(fields[1..]));
      assert [fields[0]] + fields[1..] == fields;
    }
  }

  lemma NoFields()
    ensures ReadFields("") == Some([])
  {
  }

  lemma OneFieldRead(text: string)
    requires text != "" && ',' !in text && ReadField(text).Some?
    ensures ReadFields(text) == Some([ReadField(text).value])
  {
    hide ReadField, Find;
  }

  lemma FirstFieldRead(text: string, back: string)
    requires ',' !in text && ReadField(text).Some? && ReadFields(back).Some?
    ensures ReadFields(text + ("," + back)) == Some([ReadField(text).value] + ReadFields(back).value)
  {
    hide ReadField, Find;
    SplitAt(text, ',', back);
  }

  lemma NotBetween(c: char, front: string, mid: char, back: string)
    requires c !in front && c != mid && c !in back
    ensures c !in front + ([mid] + back)
  {
  }

  /** A character that is not in front is found right behind it. */
  lemma SplitAt(front: string, c: char, back: string)
    requires c !in front
    ensures var s := front + ([c] + back);
            Find(s, c) == Some(|front|) && s[..|front|] == front && s[|front| + 1..] == back
  {
    var s := front + ([c] + back);
    assert s[..|front|] == front && s[|front|] == c && s[|front| + 1..] == back;
    FindIs(s, c, |front|);
  }

  lemma TypeReadsBack(name: string, fields: seq<Field>, rest: string)
    requires Plain(name) && PlainFields(fields) && ReadTypes(rest).Some?
    ensures ReadTypes(FormatType(name, fields) + rest) == Some([(name, fields)] + ReadTypes(rest).value)
  {
    hide FieldTexts, ReadFields, ReadType;
    FieldsReadBack(fields);
    assert FormatType(name, fields) + rest == name + ("(" + FieldTexts(fields)) + (")" + rest);
    NotBetween(')', name, '(', FieldTexts(fields));
    FirstTypeRead(name, FieldTexts(fields), rest);
  }

  lemma FirstTypeRead(name: string, inner: string, rest: string)
    requires '(' !in name && ')' !in name + ("(" + inner) && ReadFields(inner).Some?
    ensures ReadType(name + ("(" + inner) + (")" + rest)) == Some(((name, ReadFields(inner).value), rest))
  {
    hide Find, ReadFields, ReadType;
    var s, open, close := name + ("(" + inner) + (")" + rest), |name|, |name| + 1 + |inner|;
    OpensAt(name, inner, rest);
    ClosesAt(name, inner, rest);
    ReadTypeAt(s, open, close);
  }

  lemma ClosesAt(name: string, inner: string, rest: string)
    requires ')' !in name + ("(" + inner)
    ensures var s, close := name + ("(" + inner) + (")" + rest), |name| + 1 + |inner|;
            close < |s| && Find(s, ')') == Some(close) && s[close + 1..] == rest
  {
    hide Find;
    SplitAt(name + ("(" + inner), ')', rest);
  }

  lemma OpensAt(name: string, inner: string, rest: string)
    requires '(' !in name
    ensures var s := name + ("(" + inner) + (")" + rest);
            Find(s, '(') == Some(|name|) && s[..|name|] == name && s[|name| + 1..|name| + 1 + |inner|] == inner
  {
    hide Find;
    Regroup(name, inner, rest);
    SplitAt(name, '(', inner + (")" + rest));
  }

  lemma ReadTypeAt(s: string, open: nat, close: nat)
    requires Find(s, '(') == Some(open) && Find(s, ')') == Some(close) && open < close < |s|
    requires ReadFields(s[open + 1..close]).Some?
    ensures ReadType(s) == Some(((s[..open], ReadFields(s[open + 1..close]).value), s[close + 1..]))
  {
    hide Find, ReadFields;
  }

  lemma Regroup(name: string, inner: string, rest: string)
    ensures name + ("(" + inner) + (")" + rest) == name + ("(" + (inner + (")" + rest)))
    ensures (name + ("(" + inner) + (")" + rest))[|name| + 1..|name + ("(" + inner)|] == inner
  {
    assert ("(" + inner) + (")" + rest) == "(" + (inner + (")" + rest));
    assert (name + ("(" + inner))[|name| + 1..] == inner;
  }

  ghost predicate PlainTable(types: Types) {
    forall n :: n in types ==> Plain(n) && PlainFields(types[n])
  }

  function Shapes(types: Types, order: seq<string>): seq<Shape>
    requires forall x :: x in order ==> x in types
  {
    seq(|order|, i requires 0 <= i < |order| => (order[i], types[order[i]]))
  }

  lemma LastOfAll(types: Types, order: seq<string>, name: string)
    requires name in types && forall x :: x in order ==> x in types
    ensures FormatAll(types, order + [name]) == FormatAll(types, order) + FormatType(name, types[name])
  {
    assert (order + [name])[..|order|] == order;
  }

  lemma Regrouped(a: string, b: string, c: string)
    ensures (a + b) + c == a + (b + c)
  {
  }

  lemma {:induction false} FirstOfAll(types: Types, order: seq<string>)
    requires order != [] && forall x :: x in order ==> x in types
    ensures FormatAll(types, order) == FormatType(order[0], types[order[0]]) + FormatAll(types, order[1..])
  {
    hide FormatType, FormatAll;
    var last := order[|order| - 1];
    if |order| == 1 {
      NoneOfAll(types);
      LastOfAll(types, [], last);
      assert [] + [last] == order && order[1..] == [];
    } else {
      var front := order[..|order| - 1];
      FirstOfAll(types, front);
      assert front + [last] == order && front[1..] + [last] == order[1..];
      LastOfAll(types, front, last);
      LastOfAll(types, front[1..], last);
      Regrouped(FormatType(order[0], types[order[0]]), FormatAll(types, front[1..]), FormatType(last, types[last]));
    }
  }

  lemma NoneOfAll(types: Types)
    ensures FormatAll(types, []) == ""
  {
  }

  lemma NoTypes(types: Types)
    ensures ReadTypes(FormatAll(types, [])) == Some([]) && Shapes(types, []) == []
  {
  }

  lemma {:induction false} AllReadBack(types: Types, order: seq<string>)
    requires PlainTable(types) && forall x :: x in order ==> x in types
    ensures ReadTypes(FormatAll(types, order)) == Some(Shapes(types, order))
  {
    hide FormatType, FormatAll, ReadTypes, PlainFields;
    if order == [] {
      NoTypes(types);
    } else {
      FirstOfAll(types, order);
      AllReadBack(types, order[1..]);
      assert order[0] in order;
      TypeReadsBack(order[0], types[order[0]], FormatAll(types, order[1..]));
      assert [(order[0], types[order[0]])] + Shapes(types, order[1..]) == Shapes(types, order);
    }
  }

  /** The type string reads back as the primary type and then its references in order, with all their fields. */
  lemma TypeStringReadsBack(types: Types, name: string, order: seq<string>)
    requires PlainTable(types) && name in types && References(types, name, order)
    ensures forall x :: x in order ==> x in types
    ensures ReadTypes(TypeString(types, name)) == Some([(name, types[name])] + Shapes(types, order))
  {
    TypeStringIs(types, name, order);
    hide References, TypeString, FormatType, FormatAll, ReadTypes, PlainFields;
    AllReadBack(types, order);
    TypeReadsBack(name, types[name], FormatAll(types, order));
  }
}
