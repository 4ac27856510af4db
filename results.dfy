/** Option and Result wrappers, and the error vocabulary of the scanner. */
module Results {

  datatype Option<T> = None | Some(value: T) {
    function GetOr(default: T): T {
      match this
      case Some(v) => v
      case None => default
    }
  }

  datatype Result<T, E> = Success(value: T) | Failure(error: E)

  /** Why a scan stops without reaching the end of either text. The first two
      names follow scan_error::code_type of the P1729 interface. */
  datatype ScanError =
    | EndOfRange           // a converter would move the input cursor past the terminator
    | InvalidFormatString  // a directive the engine cannot interpret without undefined behaviour
    | FloatingPoint        // a floating-point directive: these conversions are not modelled
}
