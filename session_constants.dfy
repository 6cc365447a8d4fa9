/** `Netcode.Rollback.Sessions.SessionConstants`. */
module SessionConstants {
  const MAX_EVENT_QUEUE_SIZE: nat := 100
  const MAX_NUM_PLAYERS: nat := 16
  const MAX_INPUT_PAYLOAD: nat := 400
}
