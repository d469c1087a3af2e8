/** The cached user id, as the app reads it back from device storage. */
module Auth {
  import opened Wrappers

  /** The id used when storage holds none. */
  const UnknownUser: string := "Unknown"

  /** `getUserID()`: the stored id, or "Unknown" when nothing (or an empty
      string, which is falsy) is stored. Never empty. */
  function StoredUserId(stored: Option<string>): (uid: string)
    ensures uid != []
    ensures stored.Some? && stored.value != [] ==> uid == stored.value
    ensures stored.None? || stored.value == [] ==> uid == UnknownUser
  {
    match stored
    case Some(s) => if s != [] then s else UnknownUser
    case None => UnknownUser
  }
}
