/**
 * What a request handler sees of Flask and werkzeug, and what it hands back, as values:
 * the request's method, uploaded files and form fields; the flashed message, the template
 * rendered or the route redirected to; and the bytes a handler writes to disk.
 */
module Web {
  import opened Wrappers

  type Bytes = seq<bv8>

  /** A `datetime.utcnow()` reading; handlers receive it as a parameter. */
  type Time = int

  datatype HttpMethod = GET | POST

  /**
   * A werkzeug `FileStorage`: the client-supplied file name (werkzeug allows `None`) and the
   * content. `bool(storage)` is `bool(storage.filename)`.
   */
  datatype FileStorage = FileStorage(filename: Option<string>, content: Bytes)

  datatype Request = Request(
    verb: HttpMethod,
    files: map<string, FileStorage>,
    form: map<string, string>)

  /** The endpoints that handlers redirect to, with the arguments `url_for` gets. */
  datatype Route =
    | Index
    | AuthLogin
    | DownloadFile(name: string)
    | DownloadFromDirectory(directory: string, name: string)
    | SameUrl  // `redirect(request.url)`

  datatype Response =
    | Render(template: string)
    | Redirect(to: Route)
    | BadRequest  // a missing form key makes werkzeug answer 400

  /** A response together with the message `flash` queued while producing it. */
  datatype Reply = Reply(flash: Option<string>, response: Response)

  /** `file.save(path)`: these bytes end up at this path, replacing whatever was there. */
  datatype Write = Write(path: string, content: Bytes)

  function ApplyWrite(disk: map<string, Bytes>, w: Write): map<string, Bytes> {
    disk[w.path := w.content]
  }

  /** What `send_from_directory(root, path)` is asked to serve. */
  datatype Download = Download(root: string, path: string)

  const UploadTemplate := "upload_file.html.jinja"
}
