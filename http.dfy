/** What the route handlers read from a request besides its body. */
module Http {
  import opened Wrappers

  /** `getServerSession`: the signed-in caller's user id, or none when there is no session or no user. */
  type Session = Option<string>

  /**
   * `searchParams.get(name)` tested with `!value`: an absent parameter and
   * an empty one are both missing.
   */
  predicate MissingParam(param: Option<string>) {
    param.None? || param.value == ""
  }
}
