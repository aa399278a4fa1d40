/** The three batch loops that talk to the secret store, with the store
    reduced to data. Reading a name yields its secret string (`None` for a
    null one); a name in `unreadable` makes every read of it, and a name in
    `unwritable` every update of it, fail with a
    service error, and a name not in `entries` does not exist. */
module SecretStore {
  import opened Wrappers
  import opened Errors
  import opened Secrets

  datatype Store = Store(entries: map<string, Option<string>>, unreadable: set<string>, unwritable: set<string>)

  /** A read of `name` gets through to an existing secret. */
  predicate Reachable(st: Store, name: string) {
    name !in st.unreadable && name in st.entries
  }

  /** An update of `name` gets through to an existing secret. */
  predicate Updatable(st: Store, name: string) {
    name !in st.unwritable && name in st.entries
  }

  /** The error a read of an unreachable name reports. */
  function ReadError(st: Store, name: string): Error {
    if name in st.unreadable then RetrievalFailed(name) else SecretNotFound(name)
  }

  /** One `getSecretValue` call, with the errors of the retrieval handlers: it
      gets through exactly when the name is reachable, and then yields the
      stored secret string; otherwise the service error takes precedence over
      not-found. */
  function GetSecretValue(st: Store, name: string): (r: Result<Option<string>, Error>)
    ensures r.Success? <==> Reachable(st, name)
    ensures r.Success? ==> r.value == st.entries[name]
    ensures name in st.unreadable ==> r == Failure(RetrievalFailed(name))
    ensures name !in st.unreadable && name !in st.entries ==> r == Failure(SecretNotFound(name))
  {
    if !Reachable(st, name) then Failure(ReadError(st, name))
    else Success(st.entries[name])
  }

  /** `retrievePlainTextSecrets`: one fresh secret per name, in the order of
      the names, a null secret string read as the empty password; the first
      name that cannot be read aborts the whole retrieval. */
  function RetrievePlainTextSecrets(st: Store, names: seq<string>): (r: Result<seq<Secret>, Error>)
    ensures names == [] ==> r == Success([])
    ensures r.Success? <==> forall i :: 0 <= i < |names| ==> Reachable(st, names[i])
    ensures r.Success? ==> |r.value| == |names|
    ensures r.Success? ==> forall i :: 0 <= i < |names| ==>
              && r.value[i].identifier == names[i]
              && r.value[i].encryptedPassword == None
              && (st.entries[names[i]] == None ==> r.value[i].password == "")
              && (st.entries[names[i]].Some? ==> r.value[i].password == st.entries[names[i]].value)
    ensures r.Failure? ==> exists k :: 0 <= k < |names| && !Reachable(st, names[k]) && r == Failure(ReadError(st, names[k]))
  {
    if names == [] then Success([])
    else
      match GetSecretValue(st, names[0])
      case Failure(e) => Failure(e)
      case Success(value) =>
        match RetrievePlainTextSecrets(st, names[1..])
        case Failure(e) => Failure(e)
        case Success(rest) => Success([NewSecret(names[0], value.GetOr(""))] + rest)
  }

  /** The retrieval fails on the first unreadable name, not on a later one. */
  lemma {:induction false} RetrieveFailsAtFirstUnreachable(st: Store, names: seq<string>, k: nat)
    requires k < |names| && !Reachable(st, names[k])
    requires forall i :: 0 <= i < k ==> Reachable(st, names[i])
    ensures RetrievePlainTextSecrets(st, names) == Failure(ReadError(st, names[k]))
  {
    if k > 0 {
      RetrieveFailsAtFirstUnreachable(st, names[1..], k - 1);
    }
  }

  /** Java's `trim().isEmpty()`: every character is at most U+0020. */
  predicate IsBlank(name: string) {
    forall i :: 0 <= i < |name| ==> name[i] <= ' '
  }

  /** `getSecretStringValue`: a blank name is rejected before the store is
      consulted; a null secret string is an error, which the catch-all handler
      re-wraps as an unexpected retrieval error. */
  function GetSecretStringValue(st: Store, name: string): (r: Result<string, Error>)
    ensures IsBlank(name) ==> r == Failure(BlankSecretName)
    ensures r.Success? <==> !IsBlank(name) && Reachable(st, name) && st.entries[name].Some?
    ensures r.Success? ==> Some(r.value) == st.entries[name]
    ensures !IsBlank(name) && Reachable(st, name) && st.entries[name] == None ==>
              r == Failure(UnexpectedRetrievalError(name, NotAStringSecret(name)))
    ensures !IsBlank(name) && name !in st.unreadable && name !in st.entries ==> r == Failure(SecretNotFound(name))
    ensures !IsBlank(name) && name in st.unreadable ==> r == Failure(RetrievalFailed(name))
  {
    if IsBlank(name) then Failure(BlankSecretName)
    else
      match GetSecretValue(st, name)
      case Failure(e) => Failure(e)
      case Success(None) => Failure(UnexpectedRetrievalError(name, NotAStringSecret(name)))
      case Success(Some(v)) => Success(v)
  }

  /** One `updateSecret` call, with the errors of the update handlers: it
      succeeds exactly when the name accepts updates, and then overwrites that
      one secret and nothing else; no secret is ever created. */
  function UpdateSecret(st: Store, name: string, value: string): (r: Result<Store, Error>)
    ensures r.Success? <==> Updatable(st, name)
    ensures r.Success? ==>
              && r.value.unreadable == st.unreadable && r.value.unwritable == st.unwritable
              && r.value.entries.Keys == st.entries.Keys
              && r.value.entries[name] == Some(value)
              && forall n :: n in st.entries && n != name ==> r.value.entries[n] == st.entries[n]
    ensures name in st.unwritable ==> r == Failure(UpdateFailed(name))
    ensures name !in st.unwritable && name !in st.entries ==> r == Failure(UpdateTargetNotFound(name))
  {
    if name in st.unwritable then Failure(UpdateFailed(name))
    else if name !in st.entries then Failure(UpdateTargetNotFound(name))
    else Success(st.(entries := st.entries[name := Some(value)]))
  }

  /** The store after the update loop, and how many secrets were written. */
  datatype Written = Written(store: Store, count: nat)

  /** The value the update loop writes last for `name`: the encrypted password
      of the last record with that identifier whose encrypted password is not
      null. */
  function LastWrite(ss: seq<Secret>, name: string): Option<string> {
    if ss == [] then None
    else
      var later := LastWrite(ss[1..], name);
      if later.Some? then later
      else if ss[0].identifier == name then ss[0].encryptedPassword
      else None
  }

  /** The number of records the update loop writes. */
  function CountWritable(ss: seq<Secret>): nat {
    if ss == [] then 0
    else (if ss[0].encryptedPassword.Some? then 1 else 0) + CountWritable(ss[1..])
  }

  /** `updateSecretsWithEncryptedValue`: records with a null encrypted
      password are skipped, all others (the empty skip marker included) are
      written in order. No secret is created, and a secret no record writes is
      left alone, also when the loop aborts. On completion every written secret
      holds the last value written to it and the count is the number of
      writable records. */
  function UpdateSecretsWithEncryptedValue(st: Store, ss: seq<Secret>): (o: BatchOutcome<Written, Error>)
    ensures ss == [] ==> o == Completed(Written(st, 0))
    ensures o.state.store.unreadable == st.unreadable && o.state.store.unwritable == st.unwritable
    ensures o.state.store.entries.Keys == st.entries.Keys
    ensures forall n :: n in st.entries && LastWrite(ss, n).None? ==>
              o.state.store.entries[n] == st.entries[n]
    ensures o.Completed? ==> forall n :: n in st.entries && LastWrite(ss, n).Some? ==>
              o.state.store.entries[n] == LastWrite(ss, n)
    ensures o.Completed? ==> o.state.count == CountWritable(ss)
    decreases |ss|
  {
    if ss == [] then Completed(Written(st, 0))
    else if ss[0].encryptedPassword.None? then UpdateSecretsWithEncryptedValue(st, ss[1..])
    else
      match UpdateSecret(st, ss[0].identifier, ss[0].encryptedPassword.value)
      case Failure(e) => Aborted(Written(st, 0), e)
      case Success(st') =>
        var rest := UpdateSecretsWithEncryptedValue(st', ss[1..]);
        var written := Written(rest.state.store, rest.state.count + 1);
        if rest.Completed? then Completed(written) else Aborted(written, rest.error)
  }

  /** A record the loop writes must name a secret the store lets it write. */
  predicate Writable(st: Store, s: Secret) {
    s.encryptedPassword.Some? ==> Updatable(st, s.identifier)
  }

  /** The update completes exactly when every record it would write names a
      secret that accepts updates. */
  lemma {:induction false} UpdateCompletesIff(st: Store, ss: seq<Secret>)
    ensures UpdateSecretsWithEncryptedValue(st, ss).Completed? <==>
              forall i :: 0 <= i < |ss| ==> Writable(st, ss[i])
    decreases |ss|
  {
    if ss != [] {
      assert forall i :: 1 <= i < |ss| ==> ss[i] == ss[1..][i - 1];
      if ss[0].encryptedPassword.None? {
        UpdateCompletesIff(st, ss[1..]);
      } else if Updatable(st, ss[0].identifier) {
        var st' := UpdateSecret(st, ss[0].identifier, ss[0].encryptedPassword.value).value;
        UpdateCompletesIff(st', ss[1..]);
        assert forall s :: Writable(st', s) <==> Writable(st, s);
      }
    }
  }

  /** The aborted update `o` of `ss` stopped at record `k`: the records
      before it were all written, and writing record `k` to the store they
      left behind failed with the error `o` reports. */
  ghost predicate UpdateStoppedAt(st: Store, ss: seq<Secret>, o: BatchOutcome<Written, Error>, k: int) {
    && o.Aborted?
    && 0 <= k < |ss|
    && ss[k].encryptedPassword.Some?
    && var before := UpdateSecretsWithEncryptedValue(st, ss[..k]);
       && before.Completed?
       && o.state.store == before.state.store
       && var attempt := UpdateSecret(before.state.store, ss[k].identifier, ss[k].encryptedPassword.value);
          attempt.Failure? && o.error == attempt.error
  }

  /** A stop in the tail after a skipped first record is a stop of the whole
      batch, one record later. */
  lemma UpdateStoppedAtAfterSkip(st: Store, ss: seq<Secret>, k: int)
    requires |ss| > 0 && ss[0].encryptedPassword.None?
    requires UpdateStoppedAt(st, ss[1..], UpdateSecretsWithEncryptedValue(st, ss[1..]), k)
    ensures UpdateStoppedAt(st, ss, UpdateSecretsWithEncryptedValue(st, ss), k + 1)
  {
    assert ss[..k + 1][1..] == ss[1..][..k];
    assert ss[k + 1] == ss[1..][k];
  }

  /** A stop in the tail, run on the store the first record's write left
      behind, is a stop of the whole batch, one record later. */
  lemma UpdateStoppedAtAfterWrite(before: Store, after: Store, ss: seq<Secret>, k: int)
    requires |ss| > 0 && ss[0].encryptedPassword.Some?
    requires UpdateSecret(before, ss[0].identifier, ss[0].encryptedPassword.value) == Success(after)
    requires UpdateStoppedAt(after, ss[1..], UpdateSecretsWithEncryptedValue(after, ss[1..]), k)
    ensures UpdateStoppedAt(before, ss, UpdateSecretsWithEncryptedValue(before, ss), k + 1)
  {
    assert ss[..k + 1][0] == ss[0];
    assert ss[..k + 1][1..] == ss[1..][..k];
    assert ss[k + 1] == ss[1..][k];
  }

  /** Fail-fast with earlier writes kept: an aborted update leaves the store
      exactly as a completed update of the records before the offending one
      would, and reports that record's error. */
  lemma {:induction false} UpdateAbortKeepsEarlierWrites(st: Store, ss: seq<Secret>)
    requires UpdateSecretsWithEncryptedValue(st, ss).Aborted?
    ensures exists k :: UpdateStoppedAt(st, ss, UpdateSecretsWithEncryptedValue(st, ss), k)
    decreases |ss|
  {
    var tail := ss[1..];
    if ss[0].encryptedPassword.None? {
      UpdateAbortKeepsEarlierWrites(st, tail);
      var k :| UpdateStoppedAt(st, tail, UpdateSecretsWithEncryptedValue(st, tail), k);
      UpdateStoppedAtAfterSkip(st, ss, k);
    } else if UpdateSecret(st, ss[0].identifier, ss[0].encryptedPassword.value).Failure? {
      assert ss[..0] == [];
      assert UpdateStoppedAt(st, ss, UpdateSecretsWithEncryptedValue(st, ss), 0);
    } else {
      var st' := UpdateSecret(st, ss[0].identifier, ss[0].encryptedPassword.value).value;
      UpdateAbortKeepsEarlierWrites(st', tail);
      var k :| UpdateStoppedAt(st', tail, UpdateSecretsWithEncryptedValue(st', tail), k);
      UpdateStoppedAtAfterWrite(st, st', ss, k);
    }
  }
}
