/** The differences a comparison reports. */
module Changes {
  import opened Tree

  datatype ChangeOp = Modified | Added | Removed | TypeChanged | Reordered

  datatype Change = Change(path: string, op: ChangeOp, before: Value, after: Value, beforeNote: string, afterNote: string)

  /** The list that the walk appends to. */
  class ChangeList {
    var items: seq<Change>

    constructor ()
      ensures items == []
    {
      items := [];
    }

    method Append(c: Change)
      modifies this
      ensures items == old(items) + [c]
    {
      items := items + [c];
    }

    method AppendAll(cs: seq<Change>)
      modifies this
      ensures items == old(items) + cs
    {
      items := items + cs;
    }
  }
}
