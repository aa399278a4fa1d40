/** The failures of the core, one constructor per failure it reports. Most
    stand for an `EncryptionException` thrown with its own message; the
    exceptions are noted at their constructors. The catch-all handlers of the
    store loops have no constructor: the store model has no failure that
    would reach them. */
module Errors {

  /** Why building the cipher failed; the source wraps all three in the same
      "Error when initializing the cipher" exception. */
  datatype CipherFault =
    | CertificateParseError      // the text is not an X.509 certificate
    | UnsupportedTransformation  // no provider implements the transformation
    | KeyInitializationError     // the public key does not fit the transformation

  datatype Error =
    // PEM extraction in the entry point
    | MissingBeginMarker
    | MissingEndMarker
    | PemSubstringOutOfRange    // `substring` throws StringIndexOutOfBoundsException
    | MarkersOutOfOrder         // only the corrected extraction reports this; no source counterpart
    // batch encryption
    | EmptyCertificate
    | CipherInitFailed(fault: CipherFault)
    | EncryptionFailed          // `doFinal` threw; the message names no record
    // secret store
    | BlankSecretName           // an IllegalArgumentException in the source
    | SecretNotFound(name: string)
    | RetrievalFailed(name: string)
    | NotAStringSecret(name: string)
    | UnexpectedRetrievalError(name: string, cause: Error)
    | UpdateTargetNotFound(name: string)
    | UpdateFailed(name: string)
}
