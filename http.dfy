/**
 * The records the framework passes around, reduced to the fields its logic
 * reads: a PSR-7 server request (method, URI path, parsed body, attributes)
 * and a PSR-7 response (status code, body). `Runtime` is the PHP process
 * state the framework reads and writes behind the request's back: the
 * superglobals `$_POST`, `$_PUT`/`$_PATCH`/`$_DELETE` and `$_FILES`, the
 * contents of `php://input`, and the two built-ins whose behaviour is not
 * modelled here (`parse_str`, `tempnam`).
 */
module Http {
  import opened Wrappers

  /** A form value: a plain field, or the list that `name[]` fields build up. */
  datatype FormValue = Text(text: string) | List(items: seq<string>)

  type FormData = map<string, FormValue>

  /** A request attribute: the router stores a list of path parameters,
      an application may store plain strings such as `resource_name`. */
  datatype Attribute = Str(text: string) | Strs(items: seq<string>)

  /** `parsedBody` is `None` until `withParsedBody` is called (PSR-7's null). */
  datatype Request = Request(
    httpMethod: string,
    path: string,
    parsedBody: Option<FormData>,
    attributes: map<string, Attribute>)

  datatype Response = Response(status: int, body: string)

  /** `$Psr17Factory->createResponse($code)`: an empty body. */
  function Status(code: int): Response
  {
    Response(code, "")
  }

  /** One `$_FILES` entry as the body parser writes it. `mimeType` is `None`
      where PHP stores null. */
  datatype FileInfo = FileInfo(error: int, name: string, tmpName: string, size: nat, mimeType: Option<string>)

  class Runtime {
    /** `$_POST`, as PHP filled it before the script ran. */
    var post: FormData
    /** `$GLOBALS['_PUT']`, `$GLOBALS['_PATCH']`, `$GLOBALS['_DELETE']`, keyed by method. */
    var buckets: map<string, FormData>
    /** `$_FILES`. */
    var files: map<string, FileInfo>
    /** The bytes of `php://input`. */
    const input: string
    /** `parse_str`, the urlencoded parser built into PHP. */
    const parseStr: string -> FormData
    /** `tempnam` for an uploaded file of the given client name. */
    const tempnam: string -> string

    constructor (post: FormData, files: map<string, FileInfo>, input: string,
                 parseStr: string -> FormData, tempnam: string -> string)
      ensures this.post == post && this.files == files && buckets == map[]
      ensures this.input == input && this.parseStr == parseStr && this.tempnam == tempnam
    {
      this.post := post;
      this.buckets := map[];
      this.files := files;
      this.input := input;
      this.parseStr := parseStr;
      this.tempnam := tempnam;
    }
  }
}
