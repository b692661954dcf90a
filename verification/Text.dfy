/** The two readings of the source that every model in this project is stated for. */
module Text {

  /** `AsWritten` is the code as it stands; `Repaired` differs from it only in the
      places that README.md lists. */
  datatype Version = AsWritten | Repaired
}
