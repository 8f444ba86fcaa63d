/**
 * HTTP vocabulary shared by the service, the security rules and the controller:
 * request methods and the response statuses the application names.
 */
module Http {

  datatype Option<+T> = None | Some(value: T)

  datatype HttpMethod = GET | HEAD | POST | PUT | PATCH | DELETE | OPTIONS | TRACE

  /** The statuses that appear in the application's annotations and exceptions. */
  datatype HttpStatus = OK | CREATED | ACCEPTED | NO_CONTENT | BAD_REQUEST | NOT_FOUND

  /** The numeric code of a status. */
  function Code(s: HttpStatus): (c: nat)
    ensures 200 <= c < 500
    ensures (c < 300) <==> s in {OK, CREATED, ACCEPTED, NO_CONTENT}
  {
    match s
    case OK => 200
    case CREATED => 201
    case ACCEPTED => 202
    case NO_CONTENT => 204
    case BAD_REQUEST => 400
    case NOT_FOUND => 404
  }
}
