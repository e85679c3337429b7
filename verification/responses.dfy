/** The status codes and JSON bodies the handlers send. */
module Responses {
  /** `{ error: ... }`, `{ message: ... }` or the profile's `{ username: ... }`. */
  datatype Body = Error(error: string) | Message(message: string) | ProfileBody(username: string)

  datatype Response = Response(status: int, body: Body)

  const IncompleteData := Response(400, Error("Incomplete data"))
  const InternalError := Response(500, Error("Internal server error"))
  const Registered := Response(201, Message("User registered successfully"))
  const InvalidCredentials := Response(401, Error("Invalid username or password"))
  const InvalidUserObject := Response(500, Error("Invalid user object in the database"))
  const LoginSuccessful := Response(200, Message("Login successful"))
  const Unauthorized := Response(401, Error("Unauthorized"))
  const LogoutSuccessful := Response(200, Message("Logout successful"))
}
