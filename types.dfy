/**
 * Value types shared by the whole model of the replication client:
 * file types, event types, and the small constants that the copy thread
 * defines for itself.
 */
module Types {

  datatype Option<T> = None | Some(value: T)

  /** The kind of filesystem node an event or a listing row describes. */
  datatype FileType = Regular | Dir | CharDevice | BlockDevice | Fifo | Symlink | Socket | Unknown

  /** The kind of change an event reports. */
  datatype EventType = Create | ChangeData | ChangeMeta | Delete | Rename | Overflow | NoSpace | AddTree

  /** Size of a reply line buffer (REPLSIZE). */
  const ReplSize: int := 256

  /** Line count (at start-up) and byte offset (at run time) beyond which
   *  the checkpoint file is compacted (MAX_POS). */
  const MaxPos: int := 4096

  /** The type code of a directory listing row, mapped to a file type:
   *  codes outside 0..7 are refused. */
  function FileTypeOfCode(code: int): (r: Option<FileType>)
    ensures r.Some? <==> 0 <= code <= 7
    ensures r.Some? ==> CodeOfFileType(r.value) == code
  {
    if code == 0 then Some(Regular)
    else if code == 1 then Some(Dir)
    else if code == 2 then Some(CharDevice)
    else if code == 3 then Some(BlockDevice)
    else if code == 4 then Some(Fifo)
    else if code == 5 then Some(Symlink)
    else if code == 6 then Some(Socket)
    else if code == 7 then Some(Unknown)
    else None
  }

  /** The listing code of a file type (the inverse of FileTypeOfCode). */
  function CodeOfFileType(t: FileType): int
  {
    match t
    case Regular => 0
    case Dir => 1
    case CharDevice => 2
    case BlockDevice => 3
    case Fifo => 4
    case Symlink => 5
    case Socket => 6
    case Unknown => 7
  }

  /** Every file type has a listing code, and decoding it gives the type back. */
  lemma FileTypeCodeRoundTrip(t: FileType)
    ensures FileTypeOfCode(CodeOfFileType(t)) == Some(t)
  {
    match t
    case Regular =>
    case Dir =>
    case CharDevice =>
    case BlockDevice =>
    case Fifo =>
    case Symlink =>
    case Socket =>
    case Unknown =>
  }

  function Min(a: int, b: int): int { if a < b then a else b }
}
