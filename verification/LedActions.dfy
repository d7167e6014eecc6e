/** What the LED can be asked to play. */
module LedActions {
  datatype LedAction = LedNone | LedShort | LedLong | LedRapid
}
