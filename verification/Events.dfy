/** What the client does to the world outside: requests, pauses, and calls into its modules. */
module Events {
  import opened Text

  datatype Err =
    | UL_OK | UL_CURL | UL_DENIED | UL_ERR | UL_ERRNO | UL_MALLOC
    | UL_SD_SOCKET_DISABLED | UL_SD_SOCKET_NO_FD | UL_SD_SOCKET_MANY_FD

  datatype Verb = POST | GET | PATCH

  /** A callback of a module with its argument. */
  datatype Call = Success(key: CString) | Failure(err: Err) | Init | ParseConfig | Cleanup

  datatype Event =
    | Sent(verb: Verb, url: CString, body: Option<CString>, headers: seq<CString>)
    | Slept
    | Called(slot: nat, call: Call)

  class Journal {
    var log: seq<Event>

    constructor ()
      ensures log == []
    {
      log := [];
    }
  }
}
