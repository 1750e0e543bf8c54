/** Failure conditions of the cartridge packer, and the Result/Outcome
    wrappers every fallible operation returns. Each constructor stands for
    one `raise` of the Python source; the comment names the exception class
    the source raises. */
module Errors {

  datatype Error =
    // ConfigError (both configuration loaders, domain/errors.py), carrying the source's message
    | ConfigError(message: string)
    // ValueError raised by the header codec
    | InvalidCartId(text: string)
    | FieldTooLong(field: string, limit: nat)
    | InvalidHeaderSize(size: nat)
    // ValueError raised by the address table
    | InvalidSlotIndex(index: int)
    // ValueError "Header length must be 4096 bytes" (calculate_and_write_header_crc)
    | HeaderLengthMismatch
    // ValueError raised by the ICON stage
    | IconConfigMissing
    | IconPathMissing
    | IconFileNotFound
    | IconProcessFailed(cause: Error)
    | IconSizeMismatch(expected: nat, got: nat)
    | HeaderCrcMismatch(stored: nat, calculated: nat)
    // ValueError raised by the API when there is no icon configuration
    | IconConfigMissingInPack
    // ImportError raised by the API when Pillow cannot be imported
    | PillowMissing
    // ValueError raised by the ENTRY stage
    | NoLuaChunk
    | LuaGlobMissing
    | NoFilesMatch
    | LuaFileNotFound(path: string)
    | NotLuaFile(path: string)
    | CompilerNotFound
    | CompileFailed(stderr: string)
    // ValueError raised by the image tools
    | InvalidMode
    | ResizeFailed(width: nat, height: nat)
    // ValueError raised by `int(s, 16)` on text it cannot parse
    | InvalidLiteral
    // ValueError raised by `Path.match` on a pattern without components
    | EmptyPattern
    // NotImplementedError raised by `Path.glob` on an anchored pattern
    | NonRelativePattern
    // struct.error: a value out of range for its field, or a buffer too short
    | StructError
    // Python's TypeError / AttributeError when a configuration value has the wrong type
    | TypeError
    | AttributeError

  datatype Result<+T> = Success(value: T) | Failure(error: Error) {
    predicate IsFailure() { Failure? }

    function PropagateFailure<U>(): Result<U>
      requires Failure?
    {
      Failure(error)
    }

    function Extract(): T
      requires Success?
    {
      value
    }
  }

  /** The outcome of an operation that updates a buffer in place and
      returns nothing. */
  datatype Outcome = Pass | Fail(error: Error) {
    predicate IsFailure() { Fail? }

    function PropagateFailure<U>(): Result<U>
      requires Fail?
    {
      Failure(error)
    }
  }
}
