/** The command line's token lookup. Reading the flag and the environment are
    done by the caller; their results are the inputs here. */
module Cmd {
  import opened Wrappers

  const TokenEnvVar: string := "GIMME_GITHUB_TOKEN"

  const NoTokenError: string :=
    "cmd.GetToken: No token found in either --token flag or GIMME_GITHUB_TOKEN environment variable"

  /** Go's `(string, error)` pair: the token and, when lookup failed, the error. */
  datatype TokenResult = TokenResult(token: string, err: Option<string>)

  /** The token from the `--token` flag if it is set, else from the
      environment variable; `flag` is the result of reading the flag and
      `env` the variable's value ("" when unset). */
  function GetToken(flag: Result<string>, env: string): (r: TokenResult)
    // a failed flag read is reported before anything else is looked at
    ensures flag.Err? ==> r == TokenResult("", Some(flag.error))
    // the flag wins over the environment whenever it is non-empty
    ensures flag.Ok? && flag.value != "" ==> r == TokenResult(flag.value, None)
    ensures flag.Ok? && flag.value == "" && env != "" ==> r == TokenResult(env, None)
    ensures flag.Ok? && flag.value == "" && env == "" ==> r == TokenResult("", Some(NoTokenError))
    // success exactly when a non-empty token comes back, and it came from one of the two sources
    ensures r.err.None? <==> r.token != ""
    ensures r.err.None? ==> flag.Ok? && (r.token == flag.value || r.token == env)
    ensures r.err.Some? ==> r.token == ""
  {
    if flag.Err? then TokenResult("", Some(flag.error))
    else if flag.value != "" then TokenResult(flag.value, None)
    else if env != "" then TokenResult(env, None)
    else TokenResult("", Some(NoTokenError))
  }
}
