/** Edit transactions: one revision's commands under one identity, and moving them to another revision. */
module EditTransactions {
  import opened Numbers
  import opened EditCommands

  datatype EditTransaction = EditTransaction(
    sourceRevision: U64, id: U128, baseRevision: U64, committedRevision: U64, author: U64, commands: seq<EditCommand>)

  predicate ValidHeader(t: EditTransaction) {
    && t.id != 0 && t.baseRevision != U64_MAX && t.committedRevision == t.baseRevision + 1
    && 0 < |t.commands| <= MAXIMUM_COMMAND_COUNT
  }

  ghost predicate DistinctIds(commands: seq<EditCommand>) {
    forall i, j :: 0 <= i < j < |commands| ==> commands[i].id != commands[j].id
  }

  /** Commands in canonical order: sequence i at place i, all valid, all at one revision, no id twice. */
  ghost predicate Canonical(commands: seq<EditCommand>, revision: U64) {
    && (forall i :: 0 <= i < |commands| ==>
          ValidCommand(commands[i]) && commands[i].sequence == i && commands[i].worldRevision == revision)
    && DistinctIds(commands)
  }
}
