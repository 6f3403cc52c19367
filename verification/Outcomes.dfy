/** How a call of the modelled program can end. */
module Outcomes {

  datatype Option<+T> = None | Some(value: T)

  /** `Done`: the call returned. `Fatal`: `log.Fatalf` ended the process.
      `Panic`: the Go runtime stopped the process. */
  datatype Outcome<+T> = Done(value: T) | Fatal(why: string) | Panic
}
