/** The replies the request handlers send back: the `{status, message, data}`
    envelope, DRF's bare `serializer.errors` body, and an unhandled exception. */
module Responses {

  const OK: int := 200
  const CREATED: int := 201
  const BAD_REQUEST: int := 400
  const NOT_FOUND: int := 404

  /** Why one field of a request was refused (one entry of DRF's error list). */
  datatype Reason =
    | Required            // key missing from the request
    | NotNullable         // key present with the value None
    | Blank               // string empty once surrounding whitespace is stripped
    | TooLong(limit: nat)
    | NullCharacter       // the string contains U+0000
    | NotAChoice
    | BelowMin(least: int)
    | AboveMax(most: int)
    | TooManyDigits(digits: nat)
    | TooManyDecimals(places: nat)
    | TooManyWholeDigits(whole: nat)
    | NoSuchObject        // a primary key that names no row
    | NoFileName
    | EmptyFile
    | NotAnImage
    | BadExtension        // the file name's extension is not an image extension
    | NotValid            // an external validator (e-mail, username, password) refused it
    | Taken               // a UniqueValidator found the value already in use
    | Rule(text: string)  // a ValidationError raised by a serializer's own validate()

  datatype FieldError = FieldError(field: string, reasons: seq<Reason>)

  /** The message kinds of the envelope. The wording, for a resource word
      such as "aktor", "film" or "rating", is shown on each kind. */
  datatype Msg =
    | ListedAll           // "Retrive all data success..."
    | Created             // "Data <noun> created successfully..."
    | Retrieved           // "Data <noun> retrieve succesfully" ("Data aktor retrieved successfully")
    | Updated             // "Data <noun> updated successfully..."
    | Deleted             // "Data <noun> deleted successfully.."
    | MissingOnGet        // "Data <noun> does not exists" ("Data aktor does not exist")
    | MissingOnPut        // "Data <noun> does not exist"
    | MissingOnDelete     // "Data <noun> does not exist.."
    | InvalidData         // "Invalid data"
    | DuplicatePair       // "Rating with this User and Film already exists."
    | LoggedIn            // "You are logged in now..."
    | Registered          // "Your account has been registered ..."
    | RegisterFailed      // "Error bang..."

  datatype Data<+D> =
    | Omitted             // the envelope has no `data` key at all
    | EmptyObject         // `data: {}`
    | Item(item: D)
    | Items(items: seq<D>)
    | Errors(errors: seq<FieldError>)

  datatype Reply<+D> =
    | Envelope(status: int, message: Msg, data: Data<D>)
    | Bare(status: int, errors: seq<FieldError>)   // `Response(serializer.errors, status=400)`
    | ServerError                                  // an exception nobody catches: a 500

  /** A reply together with the state the store is left in. */
  datatype Exchange<S, +D> = Exchange(reply: Reply<D>, state: S)
}
