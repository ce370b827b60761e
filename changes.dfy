/** The entries of a change log, as the comparison produces them. */
module Changes {

  datatype ChangeKind = MessageAdd | MessageRemove | MessageModify | LifelineAdd | LifelineRemove

  /** One change: its kind and the node (an index into the change log's graph) it brings. */
  datatype Change = Change(kind: ChangeKind, newValue: nat)
}
