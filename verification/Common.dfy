/** Byte strings and the outcome types shared by every module. */
module Common {

  // std::string and std::vector<unsigned char> are both byte strings.
  type Bytes = seq<bv8>

  datatype Option<+T> = None | Some(value: T)

  // The exceptions the source throws, and the reasons it reports.
  datatype Error =
    | InvalidBase64
    | InvalidHexLength
    | InvalidHexChar
    | BadKeyLength
    | CiphertextTooShort
    | CiphertextNotBlocks
    | BadPadding
    | KeyVersionNotFound
    | TagMismatch
    | RandomFailed
    | NoKeyLoaded
    | TaskNotFound
    | StatementRefused
    | RateLimited
    | KeywordEmpty
    | KeywordTooShort
    | TooManyCandidates

  datatype Result<+T> = Ok(value: T) | Err(error: Error) {
    predicate IsFailure() {
      Err?
    }

    function PropagateFailure<U>(): Result<U>
      requires Err?
    {
      Err(error)
    }

    function Extract(): T
      requires Ok?
    {
      value
    }
  }
}
