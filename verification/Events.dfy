/** The start and stop events the bridge publishes and the network viewer consumes. */
module Events {
  import opened Seqs

  datatype Cmd =
    | RtStart | RtStop | ModuleInst | ModuleUninst | PubStart | PubStop | SubStart | SubStop
    | Other(cmd: string)

  /** `name` is the topic or the module name. */
  datatype Event = Event(cmd: Cmd, id: string, parent: Option<string>, name: string)

  predicate IsStart(cmd: Cmd) {
    cmd.RtStart? || cmd.ModuleInst? || cmd.PubStart? || cmd.SubStart?
  }

  predicate IsStop(cmd: Cmd) {
    cmd.RtStop? || cmd.ModuleUninst? || cmd.PubStop? || cmd.SubStop?
  }
}
