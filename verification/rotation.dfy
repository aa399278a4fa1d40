/** How the entry point chains the batch encryptor into the write-back: a
    batch that encrypted completely leaves no record for the update loop to
    skip. */
module Rotation {
  import opened Wrappers
  import opened Secrets
  import opened Encryption
  import opened SecretStore

  lemma {:induction false} EveryRecordWritable(ss: seq<Secret>)
    requires forall i :: 0 <= i < |ss| ==> ss[i].encryptedPassword.Some?
    ensures CountWritable(ss) == |ss|
  {
    if ss != [] {
      assert forall i :: 0 <= i < |ss[1..]| ==> ss[1..][i] == ss[i + 1];
      EveryRecordWritable(ss[1..]);
    }
  }

  /** After a completed encryption, the update of a store in which every
      identifier can be updated completes and writes every record. */
  lemma EncryptedBatchWrittenInFull(
    p: Provider, configured: Option<string>, secrets: seq<Secret>, certificate: string, st: Store)
    requires EncryptPlainTextSecrets(p, configured, secrets, certificate).Completed?
    requires forall i :: 0 <= i < |secrets| ==> Updatable(st, secrets[i].identifier)
    ensures UpdateSecretsWithEncryptedValue(st, EncryptPlainTextSecrets(p, configured, secrets, certificate).state).Completed?
    ensures UpdateSecretsWithEncryptedValue(st, EncryptPlainTextSecrets(p, configured, secrets, certificate).state).state.count
            == |secrets|
  {
    var encrypted := EncryptPlainTextSecrets(p, configured, secrets, certificate).state;
    UpdateCompletesIff(st, encrypted);
    EveryRecordWritable(encrypted);
  }
}
