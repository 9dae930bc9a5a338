/**
 * The keys of Streamlit's per-browser `st.session_state` that the registration
 * and login pages read and write. A key that is absent is `None`.
 */
module SessionState {
  import opened Wrappers

  /** The value stored under an email in `registered_users`: `{"full_name": ..., "password": ...}`. */
  datatype StoredUser = StoredUser(fullName: string, password: string)

  /** The value stored under `user` after a login: `{"email": ..., "full_name": ...}`. */
  datatype LoggedInUser = LoggedInUser(email: string, fullName: string)

  /** The mapping `registered_users`, keyed by the email exactly as it was typed. */
  type Users = map<string, StoredUser>

  class Session {
    var registeredUsers: Option<Users>
    var user: Option<LoggedInUser>
    var loggedIn: Option<bool>

    /** A fresh browser session holds none of the keys. */
    constructor ()
      ensures registeredUsers == None && user == None && loggedIn == None
    {
      registeredUsers := None;
      user := None;
      loggedIn := None;
    }
  }
}
