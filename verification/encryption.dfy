/** The batch encryptor: one cipher is built from the certificate text, then
    every secret's plaintext is encrypted with it, in list order, stopping at
    the first failure. Certificate parsing, the cipher, UTF-8 and Base64 are
    foreign code; a `Provider` value stands for them. */
module Encryption {
  import opened Wrappers
  import opened Errors
  import opened Secrets

  newtype byte = b: int | 0 <= b < 256

  type Bytes = seq<byte>

  /** Used when the transformation property is not set. */
  const DefaultTransformation: string := "RSA/ECB/PKCS1Padding"

  /** An initialised encrypt-mode cipher: a transformation bound to the public
      key taken from the certificate. */
  datatype Cipher = Cipher(transformation: string, publicKey: Bytes)

  /** The cryptographic runtime, left uninterpreted:
      - `publicKeyOf`: X.509 decoding of the text and extraction of its public
        key; `None` when the text is not a certificate;
      - `supports`: whether a cipher instance exists for a transformation;
      - `acceptsKey`: whether initialising that cipher with the key succeeds;
      - `doFinal`: one encryption; `None` when it throws (a bad padding or a
        plaintext too long for the key). Its `nat` argument is the position of
        the record in the batch: PKCS#1 padding draws fresh random bytes on
        every call, so two calls on the same plaintext may give different
        ciphertexts, and the position lets them;
      - `utf8`, `base64`: the two encodings around it. */
  datatype Provider = Provider(
    publicKeyOf: string -> Option<Bytes>,
    supports: string -> bool,
    acceptsKey: (string, Bytes) -> bool,
    doFinal: (Cipher, nat, Bytes) -> Option<Bytes>,
    utf8: string -> Bytes,
    base64: Bytes -> string)

  /** Builds the cipher. The transformation is the configured one when the
      property is set and the RSA/ECB/PKCS1 default otherwise; the certificate
      is decoded before the transformation is looked up, and the key is bound
      last. Every failure is a cipher-initialisation error naming its cause. */
  function InitializeCipher(p: Provider, configured: Option<string>, certificate: string): (r: Result<Cipher, Error>)
    ensures p.publicKeyOf(certificate).None? ==> r == Failure(CipherInitFailed(CertificateParseError))
    ensures r.Failure? ==> r.error.CipherInitFailed?
    ensures r.Success? ==> Some(r.value.publicKey) == p.publicKeyOf(certificate)
    ensures r.Success? && configured.None? ==> r.value.transformation == "RSA/ECB/PKCS1Padding"
    ensures r.Success? && configured.Some? ==> r.value.transformation == configured.value
    ensures r.Success? <==>
              && p.publicKeyOf(certificate).Some?
              && p.supports(configured.GetOr(DefaultTransformation))
              && p.acceptsKey(configured.GetOr(DefaultTransformation), p.publicKeyOf(certificate).value)
  {
    var transformation := configured.GetOr(DefaultTransformation);
    match p.publicKeyOf(certificate)
    case None => Failure(CipherInitFailed(CertificateParseError))
    case Some(key) =>
      if !p.supports(transformation) then Failure(CipherInitFailed(UnsupportedTransformation))
      else if !p.acceptsKey(transformation, key) then Failure(CipherInitFailed(KeyInitializationError))
      else Success(Cipher(transformation, key))
  }

  /** One encryption, as the call for the record at position `at`: the UTF-8
      bytes of the password through the cipher, then Base64. An empty password
      short-circuits to the empty string without the cipher being used; a
      throwing cipher becomes the encryption error. */
  function PerformEncryption(p: Provider, c: Cipher, at: nat, password: string): (r: Result<string, Error>)
    ensures password == "" ==> r == Success("")
    ensures password != "" ==> (r.Success? <==> p.doFinal(c, at, p.utf8(password)).Some?)
    ensures password != "" && r.Success? ==> r.value == p.base64(p.doFinal(c, at, p.utf8(password)).value)
    ensures r.Failure? ==> r == Failure(EncryptionFailed)
  {
    if password == "" then Success("")
    else
      match p.doFinal(c, at, p.utf8(password))
      case None => Failure(EncryptionFailed)
      case Some(ciphertext) => Success(p.base64(ciphertext))
  }

  /** The per-record step of the batch for the record at position `at`: a
      non-empty password gets its ciphertext, an empty one the empty-string
      skip marker without the cipher being used; either way only the
      encrypted password changes. */
  function EncryptRecord(p: Provider, c: Cipher, at: nat, s: Secret): (r: Result<Secret, Error>)
    ensures r.Success? ==> r.value.identifier == s.identifier && r.value.password == s.password
    ensures r.Success? ==> r.value.encryptedPassword.Some?
    ensures s.password == "" ==> r == Success(s.(encryptedPassword := Some("")))
    ensures s.password != "" ==> (r.Success? <==> p.doFinal(c, at, p.utf8(s.password)).Some?)
    ensures s.password != "" && r.Success? ==>
              r.value.encryptedPassword == Some(p.base64(p.doFinal(c, at, p.utf8(s.password)).value))
    ensures r.Failure? ==> r.error == EncryptionFailed
  {
    if s.password == "" then
      Success(SetEncryptedPassword(s, ""))
    else
      match PerformEncryption(p, c, at, s.password)
      case Failure(e) => Failure(e)
      case Success(v) => Success(SetEncryptedPassword(s, v))
  }

  /** The per-record results of a run from position `at`: `out[i]` is what
      `EncryptRecord` made of `ss[i]`. */
  ghost predicate AllEncrypted(p: Provider, c: Cipher, at: nat, ss: seq<Secret>, out: seq<Secret>) {
    |out| == |ss| &&
    forall i :: 0 <= i < |ss| ==>
      EncryptRecord(p, c, at + i, ss[i]).Success? && out[i] == EncryptRecord(p, c, at + i, ss[i]).value
  }

  /** `out` keeps the records of `ss` in order, identifiers and passwords intact. */
  ghost predicate SameRecords(ss: seq<Secret>, out: seq<Secret>) {
    |out| == |ss| &&
    forall i :: 0 <= i < |ss| ==> out[i].identifier == ss[i].identifier && out[i].password == ss[i].password
  }

  /** Putting the first record's result in front of the rest's keeps both
      properties of the loop. */
  lemma EncryptEachCons(p: Provider, c: Cipher, at: nat, ss: seq<Secret>, first: Secret, rest: seq<Secret>)
    requires ss != [] && EncryptRecord(p, c, at, ss[0]) == Success(first)
    requires SameRecords(ss[1..], rest)
    ensures SameRecords(ss, [first] + rest)
    ensures AllEncrypted(p, c, at + 1, ss[1..], rest) ==> AllEncrypted(p, c, at, ss, [first] + rest)
  {
    var out := [first] + rest;
    forall i | 1 <= i < |ss| ensures out[i] == rest[i - 1] && ss[i] == ss[1..][i - 1] && at + i == (at + 1) + (i - 1) {
    }
  }

  /** The loop over the records, the first of which sits at position `at` of
      the batch. On completion every record has been through `EncryptRecord`;
      on abort the records are still all there, in order, with identifiers and
      passwords intact. */
  function EncryptEach(p: Provider, c: Cipher, at: nat, ss: seq<Secret>): (o: BatchOutcome<seq<Secret>, Error>)
    ensures |o.state| == |ss|
    ensures forall i :: 0 <= i < |ss| ==>
              o.state[i].identifier == ss[i].identifier && o.state[i].password == ss[i].password
    ensures o.Completed? ==> forall i :: 0 <= i < |ss| ==>
              EncryptRecord(p, c, at + i, ss[i]).Success? && o.state[i] == EncryptRecord(p, c, at + i, ss[i]).value
    ensures o.Aborted? ==> o.error == EncryptionFailed
    decreases |ss|
  {
    if ss == [] then Completed([])
    else
      match EncryptRecord(p, c, at, ss[0])
      case Failure(e) => Aborted(ss, e)
      case Success(first) =>
        var rest := EncryptEach(p, c, at + 1, ss[1..]);
        EncryptEachCons(p, c, at, ss, first, rest.state);
        if rest.Completed? then Completed([first] + rest.state)
        else Aborted([first] + rest.state, rest.error)
  }

  /** The batch completes exactly when every record can be encrypted. The
      loop's own contract gives one direction; the other is by induction. */
  lemma {:induction false} EncryptEachCompletesIff(p: Provider, c: Cipher, at: nat, ss: seq<Secret>)
    ensures EncryptEach(p, c, at, ss).Completed? <==> AllSucceed(p, c, at, ss)
    decreases |ss|
  {
    if ss != [] && AllSucceed(p, c, at, ss) {
      AllSucceedTail(p, c, at, ss);
      EncryptEachCompletesIff(p, c, at + 1, ss[1..]);
    }
  }

  /** Every record of `ss`, the first at position `at`, can be encrypted. */
  ghost predicate AllSucceed(p: Provider, c: Cipher, at: nat, ss: seq<Secret>) {
    forall i :: 0 <= i < |ss| ==> EncryptRecord(p, c, at + i, ss[i]).Success?
  }

  /** When every record can be encrypted, so can the first and, one position
      on, every other. */
  lemma AllSucceedTail(p: Provider, c: Cipher, at: nat, ss: seq<Secret>)
    requires ss != [] && AllSucceed(p, c, at, ss)
    ensures EncryptRecord(p, c, at, ss[0]).Success?
    ensures AllSucceed(p, c, at + 1, ss[1..])
  {
    assert EncryptRecord(p, c, at + 0, ss[0]).Success?;
    forall i | 0 <= i < |ss[1..]| ensures EncryptRecord(p, c, (at + 1) + i, ss[1..][i]).Success? {
      assert ss[1..][i] == ss[i + 1] && (at + 1) + i == at + (i + 1);
    }
  }

  /** `out` is `ss` after a run from position `at` that stopped at record `k`:
      the records before `k` were encrypted, record `k` could not be, and from
      `k` on nothing changed. */
  ghost predicate StoppedAt(p: Provider, c: Cipher, at: nat, ss: seq<Secret>, out: seq<Secret>, k: int) {
    && 0 <= k < |ss| == |out|
    && EncryptRecord(p, c, at + k, ss[k]).Failure?
    && (forall i :: 0 <= i < k ==>
          EncryptRecord(p, c, at + i, ss[i]).Success? && out[i] == EncryptRecord(p, c, at + i, ss[i]).value)
    && out[k..] == ss[k..]
  }

  /** A stop found in the tail of a batch is a stop of the whole batch, one
      record later, once the head record was encrypted. */
  lemma StoppedAtShift(p: Provider, c: Cipher, at: nat, ss: seq<Secret>, first: Secret, rest: seq<Secret>, k: int)
    requires |ss| > 0 && EncryptRecord(p, c, at, ss[0]) == Success(first)
    requires StoppedAt(p, c, at + 1, ss[1..], rest, k)
    ensures StoppedAt(p, c, at, ss, [first] + rest, k + 1)
  {
    var out := [first] + rest;
    assert out[k + 1..] == rest[k..];
    assert ss[k + 1..] == ss[1..][k..];
    assert EncryptRecord(p, c, at + (k + 1), ss[k + 1]).Failure? by {
      assert ss[k + 1] == ss[1..][k] && at + (k + 1) == (at + 1) + k;
    }
    forall i | 0 <= i < k + 1
      ensures EncryptRecord(p, c, at + i, ss[i]).Success? && out[i] == EncryptRecord(p, c, at + i, ss[i]).value
    {
      if i > 0 {
        assert ss[i] == ss[1..][i - 1] && out[i] == rest[i - 1] && at + i == (at + 1) + (i - 1);
      }
    }
  }

  /** Fail-fast: an aborted batch stopped at the first record whose encryption
      fails; the records before it carry their new values and it and all
      later records are exactly as they were given. */
  lemma {:induction false} EncryptEachAbortsAtFirstFailure(p: Provider, c: Cipher, at: nat, ss: seq<Secret>)
    requires EncryptEach(p, c, at, ss).Aborted?
    ensures exists k :: StoppedAt(p, c, at, ss, EncryptEach(p, c, at, ss).state, k)
    decreases |ss|
  {
    var o := EncryptEach(p, c, at, ss);
    if EncryptRecord(p, c, at, ss[0]).Failure? {
      assert StoppedAt(p, c, at, ss, o.state, 0);
    } else {
      var first := EncryptRecord(p, c, at, ss[0]).value;
      EncryptEachAbortsAtFirstFailure(p, c, at + 1, ss[1..]);
      var rest := EncryptEach(p, c, at + 1, ss[1..]);
      var k :| StoppedAt(p, c, at + 1, ss[1..], rest.state, k);
      assert o.state == [first] + rest.state;
      StoppedAtShift(p, c, at, ss, first, rest.state, k);
    }
  }

  /** Records with an empty password never reach the cipher: replacing
      `doFinal` by any function that agrees with it on the calls for the
      non-empty passwords of the batch leaves the whole outcome unchanged. */
  lemma {:induction false} EmptyPasswordsNeverReachCipher(
    p: Provider, f: (Cipher, nat, Bytes) -> Option<Bytes>, c: Cipher, at: nat, ss: seq<Secret>)
    requires forall i :: 0 <= i < |ss| && ss[i].password != "" ==>
               f(c, at + i, p.utf8(ss[i].password)) == p.doFinal(c, at + i, p.utf8(ss[i].password))
    ensures EncryptEach(p.(doFinal := f), c, at, ss) == EncryptEach(p, c, at, ss)
    decreases |ss|
  {
    if ss != [] {
      var q := p.(doFinal := f);
      assert EncryptRecord(q, c, at, ss[0]) == EncryptRecord(p, c, at, ss[0]);
      assert forall i :: 0 <= i < |ss[1..]| ==> ss[1..][i] == ss[i + 1] && (at + 1) + i == at + (i + 1);
      EmptyPasswordsNeverReachCipher(p, f, c, at + 1, ss[1..]);
    }
  }

  /** `encryptPlainTextSecretsUsingCertString`. An empty list returns at once
      without looking at the certificate; otherwise an empty certificate, then
      a failed cipher initialisation, abort before any record is touched; the
      single cipher built is then used for every record. On completion every
      record holds a non-null encrypted password and keeps its identifier and
      password. */
  function EncryptPlainTextSecrets(p: Provider, configured: Option<string>, secrets: seq<Secret>, certificate: string)
    : (o: BatchOutcome<seq<Secret>, Error>)
    ensures secrets == [] ==> o == Completed(secrets)
    ensures secrets != [] && certificate == "" ==> o == Aborted(secrets, EmptyCertificate)
    ensures secrets != [] && certificate != "" && InitializeCipher(p, configured, certificate).Failure? ==>
              o == Aborted(secrets, InitializeCipher(p, configured, certificate).error)
    ensures |o.state| == |secrets|
    ensures forall i :: 0 <= i < |secrets| ==>
              o.state[i].identifier == secrets[i].identifier && o.state[i].password == secrets[i].password
    ensures o.Completed? ==> forall i :: 0 <= i < |secrets| ==> o.state[i].encryptedPassword.Some?
    ensures o.Completed? && secrets != [] ==>
              && InitializeCipher(p, configured, certificate).Success?
              && forall i :: 0 <= i < |secrets| ==>
                   && EncryptRecord(p, InitializeCipher(p, configured, certificate).value, i, secrets[i]).Success?
                   && o.state[i] == EncryptRecord(p, InitializeCipher(p, configured, certificate).value, i, secrets[i]).value
  {
    if secrets == [] then Completed(secrets)
    else if certificate == "" then Aborted(secrets, EmptyCertificate)
    else
      match InitializeCipher(p, configured, certificate)
      case Failure(e) => Aborted(secrets, e)
      case Success(c) => EncryptEach(p, c, 0, secrets)
  }
}
