/** Fields of a text put together with a separator, and taken apart again: the explorer's decision columns and the
    ed2k link are both written this way, and both are read back by splitting. */
module Fields {

  /** `separator.join(fields)`, for at least one field. */
  function Join(fields: seq<string>, separator: char): string {
    if fields == [] then []
    else if |fields| == 1 then fields[0]
    else fields[0] + [separator] + Join(fields[1..], separator)
  }

  /** `text.split(separator)` */
  function Split(text: string, separator: char): (fields: seq<string>)
    ensures fields != []
    ensures forall i :: 0 <= i < |fields| ==> separator !in fields[i]
  {
    if text == [] then [[]]
    else
      var rest := Split(text[1..], separator);
      if text[0] == separator then [[]] + rest else [[text[0]] + rest[0]] + rest[1..]
  }

  lemma {:induction false} SplitField(field: string, text: string, separator: char)
    requires separator !in field
    ensures Split(field, separator) == [field]
    ensures Split(field + [separator] + text, separator) == [field] + Split(text, separator)
  {
    if field == [] {
      assert ([] + [separator] + text)[1..] == text;
    } else {
      SplitField(field[1..], text, separator);
      assert (field + [separator] + text)[1..] == field[1..] + [separator] + text;
      assert field == [field[0]] + field[1..];
    }
  }

  /** Splitting undoes joining exactly when no field contains the separator. */
  lemma {:induction false} SplitJoin(fields: seq<string>, separator: char)
    requires fields != []
    ensures Split(Join(fields, separator), separator) == fields
      <==> forall i :: 0 <= i < |fields| ==> separator !in fields[i]
  {
    if forall i :: 0 <= i < |fields| ==> separator !in fields[i] {
      JoinedFields(fields, separator);
    }
  }

  lemma {:induction false} JoinedFields(fields: seq<string>, separator: char)
    requires fields != [] && forall i :: 0 <= i < |fields| ==> separator !in fields[i]
    ensures Split(Join(fields, separator), separator) == fields
  {
    if |fields| == 1 {
      SplitField(fields[0], [], separator);
    } else {
      JoinedFields(fields[1..], separator);
      SplitField(fields[0], Join(fields[1..], separator), separator);
    }
  }

  function Occurrences(text: string, c: char): nat {
    if text == [] then 0 else (if text[0] == c then 1 else 0) + Occurrences(text[1..], c)
  }

  /** A text has one field more than it has separators. */
  lemma {:induction false} FieldCount(text: string, separator: char)
    ensures |Split(text, separator)| == Occurrences(text, separator) + 1
  {
    if text != [] {
      FieldCount(text[1..], separator);
    }
  }
}
