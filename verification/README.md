# Secret rotation core, modelled in Dafny

The tool rotates plaintext secrets kept in a remote secret store into
RSA-encrypted form. It reads a list of secret names and fetches each secret's
plaintext. It then fetches a certificate from the same store and cuts the PEM
block out of the stored text. It builds one encrypt-mode cipher from the
certificate's public key, encrypts every plaintext with it, and writes the
Base64 ciphertexts back over the originals.

This project models the sequential logic of that pipeline as pure functions
over immutable data. The modules are:

- `Strings`: Java's `indexOf`.
- `Pem`: extraction of the certificate block.
- `Secrets`: the `Secret` record. The two `Secret` classes of the repository
  are line-for-line identical, so one datatype covers both.
- `Encryption`: cipher initialisation and the batch encryptor.
- `SecretStore`: the three store-facing loops.
- `Rotation`: how the entry point chains encryption into write-back.
- `Errors`: one constructor per failure the core reports. Most stand for an
  `EncryptionException` (the repository has two such classes, one per
  package, with the same shape). Three do not:
  - `PemSubstringOutOfRange` is the `StringIndexOutOfBoundsException` that
    `substring` throws;
  - `BlankSecretName` is an `IllegalArgumentException`;
  - `MarkersOutOfOrder` is reported only by the corrected extraction and has
    no counterpart in the code.
- `Wrappers`: `Option`, `Result` and `BatchOutcome`.

Abstractions:

- The secret store is data, `Store(entries, unreadable, unwritable)`.
  - `entries` maps each existing name to its secret string. `None` stands for
    a null secret string.
  - Every read of a name in `unreadable` fails the way the SDK's service
    exception does. So does every update of a name in `unwritable`.
  - The two sets are independent, so a secret can be readable but refuse
    updates. The update loop handles exactly that failure.
- Certificate parsing, the cipher, UTF-8 and Base64 are foreign code. They are
  the function-valued fields of a `Provider`:
  - `publicKeyOf` parses the certificate and gives its public key.
  - `supports` says whether a cipher exists for a transformation.
  - `acceptsKey` says whether that cipher accepts the key.
  - `doFinal` encrypts. It also receives the record's position in the batch.
    RSA with PKCS#1 padding draws random bytes on every call, so encrypting
    the same plaintext twice may give two different ciphertexts. The position
    leaves the model free to do the same.
  - `utf8` and `base64` are the two encodings.
  A field that can throw in Java returns `Option` here.
- A batch that stops part-way returns `BatchOutcome.Aborted(state, error)`. The
  source mutates records and the store in place, so `state` holds what the
  items processed before the failure left behind.
- The source treats a null certificate string, a null password and a null
  secret name exactly like the empty string. Each is modelled by the empty
  string. Null is kept as `None` only where it behaves differently from "":
  - a secret's encrypted password, because null is skipped on update and "" is
    written;
  - a stored secret string, because null fails `getSecretStringValue` and ""
    is returned.
- `retrievePlainTextSecrets` treats a null list of names like an empty one.
  `encryptPlainTextSecretsUsingCertString` treats a null list of secrets like
  an empty one. In both cases the null list is modelled by the empty sequence.
  `updateSecretsWithEncryptedValue` is different: a null list fails its
  `requireNonNull` check. That check is left out, and only the empty list, a
  no-op, is modelled.
- Java strings count UTF-16 code units; a Dafny `string` counts Unicode
  scalar values. The text that extraction returns is the same under both
  counts. The indices and lengths the contracts mention are in Dafny's count,
  so they differ from Java's once the text holds a character outside the
  Basic Multilingual Plane, such as an emoji.
- The transformation property is an `Option<string>`: `None` when the system
  property is unset.

Three behaviours of the code worth noting:

- A failed encryption reports "Error when encrypting the provided password".
  This message does not name the record, so `EncryptionFailed` carries no
  identifier.
- In `getSecretStringValue` the "is not a string secret" exception is thrown
  inside the `try`. The catch-all handler catches it and wraps it again as an
  unexpected retrieval error, so the model returns
  `UnexpectedRetrievalError(name, NotAStringSecret(name))`.
- Extraction does not check the order of the two markers. The model keeps
  that behaviour; see Findings.

## Model

| member | source | states |
|---|---|---|
| `Strings.IndexOf` | src/main/java/org/wso2/asgardio/encrypt/PasswordEncryptor.java:62-63 | `indexOf` finds a marker exactly when it occurs in the text. The index it returns is the first occurrence, and any first occurrence is the one it returns. |
| `Pem.ExtractPem` | src/main/java/org/wso2/asgardio/encrypt/PasswordEncryptor.java:62-75 | A missing begin marker gives the BEGIN error, and it wins when the end marker is missing too. A begin marker without an end marker gives the END error. Otherwise the result is the text from the first begin marker through the end of the first end marker, or the `substring` failure when the begin index lies past that end. A success is always a contiguous part of the input. |
| `Pem.OrderedMarkersGiveBlock` | src/main/java/org/wso2/asgardio/encrypt/PasswordEncryptor.java:62-75 | When the first begin marker precedes the first end marker, extraction succeeds. The result starts with the begin marker and ends with the end marker. Its last character is the last character of the first end marker, and its length is endIndex + 25 - beginIndex. |
| `Pem.ReversedMarkersGiveFragment` | src/main/java/org/wso2/asgardio/encrypt/PasswordEncryptor.java:62-75 | When the first end marker precedes the first begin marker, extraction either fails with the `substring` error or returns a fragment that is not a block. Such a fragment is at most five dashes and has neither marker as prefix or suffix. |
| `Pem.CleanBlockUnchanged` | src/main/java/org/wso2/asgardio/encrypt/PasswordEncryptor.java:62-75 | A block that starts with the begin marker and whose first end marker closes it comes back unchanged. |
| `Pem.SurroundingTextDropped` | src/main/java/org/wso2/asgardio/encrypt/PasswordEncryptor.java:62-75 | Metadata before and after a clean block is dropped, provided no marker starts inside the leading text. |
| `Pem.ReversedSampleYieldsDashes` | src/main/java/org/wso2/asgardio/encrypt/PasswordEncryptor.java:62-75 | The reversed-marker input `-----END CERTIFICATE-----BEGIN CERTIFICATE-----` is accepted and yields `-----`. The corrected extraction rejects the same input as out of order. |
| `Pem.ExtractPemChecked` | src/main/java/org/wso2/asgardio/encrypt/PasswordEncryptor.java:62-75 | This is the corrected extraction. It reports out-of-order markers exactly when the first end marker precedes the first begin marker. Every success starts with the begin marker, ends with the end marker and is part of the input. In every other case it agrees with the as-written extraction. |
| `Secrets.NewSecret` | src/main/java/org/wso2/asgardio/model/Secret.java:17-21 | The constructor stores identifier and password as given. The encrypted password is still null afterwards. |
| `Secrets.SetEncryptedPassword` | src/main/java/org/wso2/asgardio/model/Secret.java:33-41 | The setter changes only the encrypted password. The getter then returns the value just set. |
| `Encryption.InitializeCipher` | src/main/java/org/wso2/asgardio/utils/EncryptionUtils.java:94-115 | The transformation is the configured property if set, otherwise `RSA/ECB/PKCS1Padding`. A text that does not parse as a certificate fails first. The cipher exists exactly when the certificate parses, the transformation is supported and the key fits it. It is bound to the certificate's public key, and every failure is a cipher-initialisation error. |
| `Encryption.PerformEncryption` | src/main/java/org/wso2/asgardio/utils/EncryptionUtils.java:73-92 | An empty password gives "" without the cipher being used. Otherwise it succeeds exactly when `doFinal` succeeds on the UTF-8 bytes, and gives the Base64 of the ciphertext. A throwing `doFinal` becomes the encryption error. |
| `Encryption.EncryptRecord` | src/main/java/org/wso2/asgardio/utils/EncryptionUtils.java:60-92 | An empty password gets the "" marker and the call cannot fail. A non-empty one succeeds exactly when the `doFinal` call for that record's position succeeds on its UTF-8 bytes. It then gets the Base64 of that ciphertext. Identifier and password never change, and a success always sets the encrypted password. |
| `Encryption.EncryptEach` | src/main/java/org/wso2/asgardio/utils/EncryptionUtils.java:60-69 | The loop keeps every record in order with identifier and password intact. When it completes, every record is the per-record result. An abort reports the encryption failure. |
| `Encryption.EncryptEachCompletesIff` | src/main/java/org/wso2/asgardio/utils/EncryptionUtils.java:60-90 | The loop completes exactly when every record can be encrypted. |
| `Encryption.EncryptEachAbortsAtFirstFailure` | src/main/java/org/wso2/asgardio/utils/EncryptionUtils.java:60-90 | An aborted loop stopped at a record whose encryption fails. Every earlier record was encrypted and holds its new value. That record and all later ones are exactly as given. |
| `Encryption.EmptyPasswordsNeverReachCipher` | src/main/java/org/wso2/asgardio/utils/EncryptionUtils.java:61-77 | The outcome depends on `doFinal` only at the non-empty passwords of the batch. Empty passwords never reach the cipher. |
| `Encryption.EncryptPlainTextSecrets` | src/main/java/org/wso2/asgardio/utils/EncryptionUtils.java:47-71 | An empty list returns unchanged without the certificate being examined. Otherwise an empty certificate, then a cipher-initialisation failure, aborts with no record touched. On completion every record has a non-null encrypted password and keeps its identifier and password. Each record is the per-record result under the one cipher built from the certificate. |
| `SecretStore.GetSecretValue` | src/main/java/org/wso2/asgardeo/utils/AwsSecretsManagerUtils.java:88-107 | One read succeeds exactly when the name is readable, and then yields the stored secret string, null included. An unreadable name gives the service error and a missing one gives not-found. |
| `SecretStore.RetrievePlainTextSecrets` | src/main/java/org/wso2/asgardeo/utils/AwsSecretsManagerUtils.java:74-115 | An empty name list gives an empty result. Retrieval succeeds exactly when every name is readable, meaning it exists and is not unreadable. It then returns one fresh secret per name, in order, with the name as identifier. A null secret string becomes the password "" and any other value is copied verbatim. A failure is the read error of some unreadable name. |
| `SecretStore.RetrieveFailsAtFirstUnreachable` | src/main/java/org/wso2/asgardeo/utils/AwsSecretsManagerUtils.java:86-111 | Retrieval is fail-fast. The reported error is that of the first name that cannot be read. |
| `SecretStore.GetSecretStringValue` | src/main/java/org/wso2/asgardeo/utils/AwsSecretsManagerUtils.java:125-157 | A blank name (all characters at most U+0020) is rejected whatever the store holds. A missing name gives not-found, an unreadable one gives the service error, and a null secret string gives the wrapped "not a string secret" error. It succeeds exactly when the name is readable with a non-null string, and returns that string. |
| `SecretStore.UpdateSecret` | src/main/java/org/wso2/asgardeo/utils/AwsSecretsManagerUtils.java:185-199 | One update succeeds exactly when the name exists and accepts updates. It then overwrites that secret and nothing else, and creates no secret. A refusing name gives the service error and a missing one gives the not-found error. |
| `SecretStore.UpdateSecretsWithEncryptedValue` | src/main/java/org/wso2/asgardeo/utils/AwsSecretsManagerUtils.java:168-206 | An empty list leaves the store as it is. No secret is created. A secret that no record writes keeps its value, even after an abort. On completion each written secret holds the last non-null encrypted password given for it, "" included, and the count is the number of records whose encrypted password is not null. |
| `SecretStore.UpdateCompletesIff` | src/main/java/org/wso2/asgardeo/utils/AwsSecretsManagerUtils.java:179-203 | The update completes exactly when every record with a non-null encrypted password names an existing secret that accepts updates. |
| `SecretStore.UpdateAbortKeepsEarlierWrites` | src/main/java/org/wso2/asgardeo/utils/AwsSecretsManagerUtils.java:179-203 | An aborted update leaves the store exactly as a completed update of the records before the offending one would. It reports the error of writing that record. |
| `Rotation.EncryptedBatchWrittenInFull` | src/main/java/org/wso2/asgardio/encrypt/PasswordEncryptor.java:81-84 | After a completed encryption, the write-back to a store where every identifier exists and accepts updates completes. It writes every record. |

## Findings

| source | as written | input that shows it | evidently intended | confidence | as-written member | corrected member |
|---|---|---|---|---|---|---|
| src/main/java/org/wso2/asgardio/encrypt/PasswordEncryptor.java:62-75 | The block is cut from the first begin marker to the end of the first end marker, with no check of their order. When the end marker comes first but the markers share dashes, `substring` returns a fragment of up to five dashes instead of failing. | `-----END CERTIFICATE-----BEGIN CERTIFICATE-----` extracts to `-----` | An end marker before the begin marker is rejected at extraction, so every extracted block opens and closes with the markers | high; not executed | `Pem.ReversedSampleYieldsDashes` | `Pem.ExtractPemChecked` |

`Pem.ExtractPem` keeps the as-written behaviour because it is the behaviour of
the code. `Pem.ExtractPemChecked` is the extraction to use. It differs from
`Pem.ExtractPem` only on the out-of-order inputs.

## Left out

- Network client creation and all SDK request and response types are left out. The store is the `Store` value.
- X.509 parsing, RSA, UTF-8 and Base64 are left out. They are foreign code, represented by the uninterpreted fields of `Provider`.
- The registration of the BouncyCastle provider is left out. It is process-wide JVM state with no effect on the values computed.
- The `synchronized` blocks around the cipher are left out. The program is single-threaded and the model is pure.
- "The cipher is built exactly once per call" is not a separate property. In a pure model the one cipher is a value that `EncryptPlainTextSecrets` computes once and passes to every record, as its contract states.
- Loading the name list from `secrets.json` with Gson, and the class-path lookup, are left out. The names arrive as a `seq<string>`.
- The rest of the entry point is left out: logging, reading system properties, `System.exit` and closing the client. Only the extraction block and the hand-over from encryption to write-back are modelled.
- The constants class, both exception classes and both `InputSecrets` classes are not modelled as classes. They become the default transformation constant, the `Error` datatype and a `seq<string>`.
- `Objects.requireNonNull` on the client, the name holder and the list is left out. Nothing in the model can be null there.
- Java getters are left out. They are the datatype's fields.
- Error messages and the exception cause chain are left out. Each failure the core reports is a constructor of `Error`, and only the one re-wrapping that matters is kept: `UnexpectedRetrievalError`.
- The catch-all handlers of the retrieval loop ("Unexpected error retrieving secret", AwsSecretsManagerUtils.java:108-110) and of the update loop ("Unexpected error updating secret", :200-202) have no constructor. In the model a store call fails only through `unreadable`, `unwritable` or a missing name, so nothing reaches them.
- Secret identifiers are taken as canonical keys of the store. The source accepts either a secret's name or its ARN, but here the two are distinct keys. So a name list holding both forms of one secret is modelled as two secrets, and the frame clause "a secret that no record writes keeps its value" relies on that.
- When a name is both missing and refuses the call, the model reports the service error. The SDK's order of checks is not visible in the source.
- `Encryption.InitializeCipher`: the `IOException` handler around the in-memory stream is left out. Such a stream cannot throw.
- `SecretStore.UpdateSecretsWithEncryptedValue`: on abort, the returned count is not specified. The source only logs the count after a completed loop.
