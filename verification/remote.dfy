/** What the remote storage client answers; the client itself is not modelled. */
module Remote {

  /** The dictionary `move_files` returns: a truthy `state` means the move was accepted;
      otherwise it carries the API's error message or the text of the exception
      `move_files` caught. */
  datatype MoveReply = Moved | NotMoved(error: string)
}
