/** The `Secret` record: a secret's name in the store, its plaintext value and,
    once processed, its encrypted value. Java getters are the fields. */
module Secrets {
  import opened Wrappers

  /** `encryptedPassword` is `None` while the Java field is still null. A null
      `password` is treated everywhere exactly like the empty string, so it is
      modelled by the empty string. */
  datatype Secret = Secret(identifier: string, password: string, encryptedPassword: Option<string>)

  /** The constructor: stores both arguments as given; nothing is encrypted yet. */
  function NewSecret(identifier: string, password: string): (s: Secret)
    ensures s.identifier == identifier && s.password == password
    ensures s.encryptedPassword == None
  {
    Secret(identifier, password, None)
  }

  /** The setter: the new value is what the getter returns from now on, and
      the other two fields are left alone. */
  function SetEncryptedPassword(s: Secret, value: string): (s': Secret)
    ensures s'.identifier == s.identifier && s'.password == s.password
    ensures s'.encryptedPassword == Some(value)
  {
    s.(encryptedPassword := Some(value))
  }
}
