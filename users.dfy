/** The credentialed principal shared by students and administrators.
    Its three fields are set once, when the principal is created, and no
    operation changes them afterwards, so it is a value. */
module Users {

  datatype User = User(username: string, password: string, userId: string) {

    /** Credential check: plain string equality on both fields. */
    predicate Login(inputUsername: string, inputPassword: string)
    {
      username == inputUsername && password == inputPassword
    }

    function GetUserId(): string
    {
      userId
    }

    function GetUsername(): string
    {
      username
    }
  }
}
