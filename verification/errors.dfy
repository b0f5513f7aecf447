/** The exceptions the services and commands raise, as values. */
module Errors {

  datatype Error =
      /** `File not found: …`, raised by readCsv and getHeader, or reported by a command. */
    | FileNotFound
      /** An existing but empty file: fgetcsv returns false and cleanHeader rejects it. */
    | NoHeader
      /** A column a command or the loader needs is absent from the header. */
    | RequiredColumnsMissing(columns: seq<string>)
      /** createFeature is declared with `array $geometry`; a decoded scalar is a TypeError. */
    | GeometryNotArray(geometry: string)
}
