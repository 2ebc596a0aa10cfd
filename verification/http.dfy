/** The HTTP vocabulary the handlers use: request methods and `net/http` status codes. */
module Http {

  const Options: string := "OPTIONS"
  const Get: string := "GET"
  const Post: string := "POST"
  const Put: string := "PUT"
  const Delete: string := "DELETE"

  const StatusOK: int := 200
  const StatusCreated: int := 201
  const StatusBadRequest: int := 400
  const StatusUnauthorized: int := 401
  const StatusNotFound: int := 404
  const StatusMethodNotAllowed: int := 405
  const StatusInternalServerError: int := 500
}
