/** The process environment the start-up script reads, as an explicit map. */
module Environ {
  import opened Wrappers

  type Env = map<string, string>

  /** `env.get(name, default)` */
  function Get(env: Env, name: string, default: string): string {
    if name in env then env[name] else default
  }

  /** `env.get(name, None)` read through `if not value: return`: a variable that is set to a
      non-empty value */
  function Present(env: Env, name: string): Option<string> {
    if name in env && env[name] != [] then Some(env[name]) else None
  }
}
