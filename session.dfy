/**
  The request session (express-session) as the core uses it: `userId` and the
  logged-in `user` object, which the demo login writes and which the lesson
  completion handler updates in place.
 */
module Sessions {
  import opened Js
  import opened Schema

  /** A demo account object as the login handler stores it in the session. */
  datatype Account = Account(
    id: int,
    password: string,
    role: Role,
    firstName: string,
    lastName: string,
    xp: Option<int>,
    level: Option<int>)

  class Session {
    var userId: Option<int>
    var user: Option<Account>

    /** A fresh session holds no user. */
    constructor ()
      ensures userId == None && user == None
    {
      userId := None;
      user := None;
    }
  }
}
