/** The states of the driver in src/util/state.h, which the frame reader and the message parser share. */
module StateMachine {
  datatype Overall = Start | InState | End | Error
}
