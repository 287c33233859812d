/**
 * The session store: the bearer token, the signed-in user and the flag the
 * navigators read to choose between the sign-in and the app screens. The user
 * record's shape is not looked at, so it is a type parameter.
 */
module AuthStore {
  import opened Optional

  class Session<User> {
    var token: Option<string>
    var user: Option<User>
    var isAuthenticated: bool

    /** The flag is set exactly when a non-empty token is held (`!!token`). */
    ghost predicate Valid()
      reads this
    {
      isAuthenticated <==> (token.Some? && token.value != "")
    }

    constructor ()
      ensures Valid()
      ensures token == None && user == None && !isAuthenticated
    {
      token := None;
      user := None;
      isAuthenticated := false;
    }

    method SetToken(t: string)
      requires Valid()
      modifies this
      ensures Valid()
      ensures token == Some(t)
      ensures isAuthenticated <==> t != ""
      ensures user == old(user)
    {
      token := Some(t);
      isAuthenticated := t != "";
    }

    /** `setUser(user)`; `None` stands for a `null` argument. */
    method SetUser(u: Option<User>)
      requires Valid()
      modifies this
      ensures Valid()
      ensures user == u
      ensures token == old(token) && isAuthenticated == old(isAuthenticated)
    {
      user := u;
    }

    /** From any state, back to the signed-out state; a second call changes nothing. */
    method Logout()
      modifies this
      ensures Valid()
      ensures token == None && user == None && !isAuthenticated
    {
      token := None;
      user := None;
      isAuthenticated := false;
    }
  }
}
