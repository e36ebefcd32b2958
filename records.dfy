/** The flat records handed between the pipeline's stages. */
module Records {

  /** A cell of a port row or of a table: missing (`None`/NaN), a text, or a coordinate.
      A coordinate keeps the text that `float()` converts; the conversion itself is not
      part of this model. */
  datatype Value = Null | Str(s: string) | Num(raw: string)

  /** One dict of `parse_stations`, keyed by column name. A key that is absent reads as a
      missing cell, as it does once `pd.DataFrame` aligns the dicts into columns. */
  type Row = map<string, Value>

  function Get(r: Row, column: string): Value {
    if column in r then r[column] else Null
  }

  /** One dict of `parse_status`: one port of one station in a status reply. */
  datatype StatusRecord = StatusRecord(
    stationID: string,
    portNumber: string,
    portStatus: string,
    faultReason: string,
    timestamp: string,
    networkStatus: string)
}
