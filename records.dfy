/** A parsed CSV row: the entries of a JavaScript object whose keys are the
    header's column names and whose values are the row's strings, in the
    order `Object.entries` yields them. */
module Records {

  /** One `[field, value]` entry of a row. */
  datatype Column = Column(name: string, value: string)

  type Record = seq<Column>

  /** The column names of a row, in order (`Object.keys`). */
  function Names(row: Record): (names: seq<string>)
    ensures |names| == |row|
    ensures forall i :: 0 <= i < |row| ==> names[i] == row[i].name
  {
    seq(|row|, i requires 0 <= i < |row| => row[i].name)
  }

  /** The values of a row, in order (`Object.values`). */
  function Values(row: Record): (values: seq<string>)
    ensures |values| == |row|
    ensures forall i :: 0 <= i < |row| ==> values[i] == row[i].value
  {
    seq(|row|, i requires 0 <= i < |row| => row[i].value)
  }

  /** No name occurs twice, as for the keys of any JavaScript object. */
  predicate DistinctNames(row: Record)
  {
    forall i, j :: 0 <= i < j < |row| ==> row[i].name != row[j].name
  }

  /** `row[name] = value` on a JavaScript object: an existing key keeps its
      place and takes the new value; a new key goes last. */
  function Assign(row: Record, name: string, value: string): (row': Record)
    ensures Names(row') == if name in Names(row) then Names(row) else Names(row) + [name]
    ensures forall i :: 0 <= i < |row| && row[i].name != name ==> row'[i] == row[i]
    ensures forall i :: 0 <= i < |row'| && row'[i].name == name ==> row'[i].value == value
    ensures DistinctNames(row) ==> DistinctNames(row')
  {
    if name in Names(row) then
      seq(|row|, i requires 0 <= i < |row| =>
        if row[i].name == name then Column(name, value) else row[i])
    else
      row + [Column(name, value)]
  }
}
