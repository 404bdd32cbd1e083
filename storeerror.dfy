/** The error kinds a backend operation reports. */
module StorageErrors {
  datatype StoreError =
    | NotFound                  // the file or directory does not exist
    | IoFailure                 // the medium refused the call
    | Malformed                 // the file exists but does not decode
    | Rejected(reason: string)  // the error an UpdateTask mutator returned
}
