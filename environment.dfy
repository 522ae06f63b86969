/** The process environment: a map from variable names to values. A
    variable that is unset, or whose value is not valid Unicode (which a
    `string` cannot hold), is missing from the map; both make `env::var`
    fail. */
module Environment {
  import opened Wrappers

  type Env = map<string, string>

  /** `env::var(name).ok()`. */
  function Var(env: Env, name: string): Option<string> {
    if name in env then Some(env[name]) else None
  }
}
