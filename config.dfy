/** Static server settings and the zero-value defaulting helpers (config.go). */
module Configuration {

  /** Credential record of one user: the password is kept and compared in clear text. */
  datatype User = User(password: string)

  /** Server settings. The Go struct's zero value is `EmptyConfig` (a nil user map reads as empty). */
  datatype Config = Config(historySize: int, hostKeyFile: string, users: map<string, User>, bind: string)

  /** `Config{}`: every field at its zero value. */
  const EmptyConfig: Config := Config(0, "", map[], "")

  const DefaultConfigHistorySize: int := 100
  const DefaultBind: string := ":22"

  /** The value itself unless it is the integer zero value, in which case the default. */
  function UseOrDefaultInt(value: int, defaultValue: int): (r: int)
    ensures value == 0 ==> r == defaultValue
    ensures value != 0 ==> r == value
  {
    if value == 0 then defaultValue else value
  }

  /** The value itself unless it is the empty string, in which case the default. */
  function UseOrDefaultString(value: string, defaultValue: string): (r: string)
    ensures value == "" ==> r == defaultValue
    ensures value != "" ==> r == value
  {
    if value == "" then defaultValue else value
  }

  /** Defaulting twice with the same default is the same as defaulting once. */
  lemma UseOrDefaultIntIdempotent(value: int, defaultValue: int)
    ensures UseOrDefaultInt(UseOrDefaultInt(value, defaultValue), defaultValue) == UseOrDefaultInt(value, defaultValue)
  {
  }

  lemma UseOrDefaultStringIdempotent(value: string, defaultValue: string)
    ensures UseOrDefaultString(UseOrDefaultString(value, defaultValue), defaultValue) == UseOrDefaultString(value, defaultValue)
  {
  }

  /** The result is unset (zero or empty) only when both the value and the default are unset. */
  lemma DefaultedIsSetUnlessBothUnset(n: int, dn: int, s: string, ds: string)
    ensures UseOrDefaultInt(n, dn) == 0 <==> n == 0 && dn == 0
    ensures UseOrDefaultString(s, ds) == "" <==> s == "" && ds == ""
  {
  }

  /** With the shipped defaults the effective history size and bind address are never unset. */
  lemma ShippedDefaultsNeverUnset(historySize: int, bind: string)
    ensures UseOrDefaultInt(historySize, DefaultConfigHistorySize) != 0
    ensures UseOrDefaultString(bind, DefaultBind) != ""
  {
    DefaultedIsSetUnlessBothUnset(historySize, DefaultConfigHistorySize, bind, DefaultBind);
  }
}
