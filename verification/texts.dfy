// What the shell's printers and readers work on: texts without NUL, and SQL values that may be NULL.
module Texts {
  import opened Bytes

  type Text = seq<Byte>

  datatype Option<+T> = None | Some(value: T)

  /** Text a C string can hold. */
  predicate NulFree(fields: seq<Text>) {
    forall k :: 0 <= k < |fields| ==> 0 !in fields[k]
  }

  lemma {:induction false} CStringOfNulFree(t: Text)
    requires 0 !in t
    ensures CString(t) == t
  {
    if t != [] { CStringOfNulFree(t[1..]); }
  }

  /** A value as the shell shows it: NULL as the null text. */
  function Shown(z: Option<Text>, nullValue: Text): Text {
    match z
    case None => nullValue
    case Some(t) => t
  }

  function ShownAll(cells: seq<Option<Text>>, nullValue: Text): (r: seq<Text>)
    ensures |r| == |cells|
  {
    seq(|cells|, i requires 0 <= i < |cells| => Shown(cells[i], nullValue))
  }

  function Values(fields: seq<Text>): (r: seq<Option<Text>>)
    ensures |r| == |fields|
  {
    seq(|fields|, i requires 0 <= i < |fields| => Some(fields[i]))
  }
}
