/** The compile-time sizes and the global status codes of the virtual file system.
    The sizes are left unspecified, so everything proved here holds for every choice of them. */
module Settings {

  type pos = n: nat | 0 < n witness 1

  const CHUNK_SIZE: pos
  const CHUNKS_AMOUNT: pos
  const MAX_FILE_CHUNK_EXTENTS_AMOUNT: pos

  const MAX_NAME_LENGTH: pos
  const MAX_SUB_FILES_AMOUNT: pos
  const MAX_SUB_FOLDERS_AMOUNT: pos
  const MAX_PATH_NODES_AMOUNT: pos
  const MAX_FOLDER_DEPTH: pos := MAX_PATH_NODES_AMOUNT
  const VFS_MAX_FILES_AMOUNT: pos
  const VFS_MAX_FOLDERS_AMOUNT: pos

  const PATH_DELIMITER: char := '/'
  const NUL: char := '\0'

  newtype byte = n: int | 0 <= n < 256
  const EOC_OPERATOR: byte := 0x1E

  datatype Status =
    | Success
    | NullPointerPassed
    | InvalidArgument
    | IndexOutOfBounds
    | NoSpace
    | InsufficientArrayPassed
    | FreeChunkAccessAttempt
    | DataOverFlow
    | DataSetIsEmpty
    | FileChunkExtentLimitExceeded
    | ChunkDoesNotBelongToFile
    | NotFoundChunksTerminated
    | FileIsEmpty
    | InvalidOperation
    | InvalidRootOperation
    | AttemptedToDeleteFolderWithSubEntries
    | AttemptedToEnforceCyclicRelation
    | SearchTargetNotFound
    | PathIsTooLong
    | PathIsEmpty
    | IdentifierNotAvailable
    | IdentifierIsTooLong
    | InvalidCharacterInIdentifier
    | UnknownEntry
    | UninitialisedEntry
    | RecursiveOperationLimitExceeded
}
