/** Spreadsheet cells as the sync scripts build them, and the two ways they blank out a missing value. */
module Cells {
  import opened Base

  /** A cell of a row: a Python `str`, `int` or `float`. */
  datatype Cell = Str(text: string) | Int(n: int) | Num(x: real)

  type Row = seq<Cell>

  const Blank: Cell := Str("")

  /** `x or ""` on an optional string: `None` and `""` both give the empty string. */
  function TextOrBlank(o: Option<string>): (c: Cell)
    ensures c.Str?
    ensures c == Blank <==> o.None? || o.value == ""
    ensures o.Some? ==> c.text == o.value
  {
    Str(o.GetOr(""))
  }

  /** `x or ""` on an optional integer: `None` and `0` are both falsy and give `""`. */
  function IntOrBlank(o: Option<int>): (c: Cell)
    ensures c == Blank <==> o.None? || o.value == 0
    ensures c != Blank ==> c == Int(o.value)
  {
    if o.Some? && o.value != 0 then Int(o.value) else Blank
  }

  /** `x if x is not None else ""` on an optional number: only `None` is blanked, `0` is kept. */
  function NumOrBlank(o: Option<real>): (c: Cell)
    ensures c == Blank <==> o.None?
    ensures o.Some? ==> c == Num(o.value)
  {
    if o.Some? then Num(o.value) else Blank
  }

  /** A header list written as a row of text cells. */
  function HeaderRow(headers: seq<string>): (r: Row)
    ensures |r| == |headers|
    ensures forall i :: 0 <= i < |headers| ==> r[i] == Str(headers[i])
  {
    seq(|headers|, i requires 0 <= i < |headers| => Str(headers[i]))
  }
}
