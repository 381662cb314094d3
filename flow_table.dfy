/** The tabular edge list the flowchart is built from: one row per directed
    connection. Every cell is a string; the optional columns are `Option`s whose
    `None` stands for a missing value (a NaN cell or an absent column). */
module FlowTable {

  datatype Option<T> = None | Some(value: T) {
    /** The value, or `default` when it is missing. */
    function GetOr(default: T): T {
      match this
      case Some(v) => v
      case None => default
    }
  }

  /** One row with the columns `From_ID, From_Label, To_ID, To_Label, Connector,
      Tooltip, URL, notes`. The fixed-arrow compiler ignores `connector`. */
  datatype Row = Row(
    fromId: string,
    fromLabel: string,
    toId: string,
    toLabel: string,
    connector: string,
    tooltip: Option<string>,
    url: Option<string>,
    notes: Option<string>)
}
