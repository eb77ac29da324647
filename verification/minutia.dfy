/**
  The minutia entity and the reader's failures. The repository's own
  `minutia.py` and `errors.py` are not part of this model; the fields below are
  the keyword arguments the reader passes to `Minutia(...)`.
 */
module Minutiae {

  /** The two kinds of fingerprint ridge feature. */
  datatype MinutiaType = RidgeEnding | Bifurcation

  /** A feature point: pixel position, ridge direction in degrees, kind and quality score. */
  datatype Minutia = Minutia(x: int, y: int, angle: real, kind: MinutiaType, quality: real)

  /** Why a file is refused as corrupt (`CorruptFileError`). */
  datatype Corruption =
    | UnknownType(tag: string)
    | CountMismatch(declared: int, read: nat)

  /** Everything that can stop a read. */
  datatype Error =
    | Unconfigured(format: string)   // AttributeError from the constructor
    | CorruptFile(reason: Corruption) // CorruptFileError
    | MissingLine(line: nat)          // IndexError on the list of lines
    | MissingToken(position: nat)     // IndexError on the tokens of one line
    | BadNumeral(token: string)       // ValueError from int() or float()
}
