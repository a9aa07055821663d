/**
 * The upload handler of the two earlier revisions, `create_app` and the single-module site:
 * both revisions define `upload_file` with the same body. Every file goes straight into the
 * upload directory under its secured name, with no uuid and no metadata record.
 */
module FlatUpload {
  import opened Wrappers
  import opened PosixPath
  import opened Web
  import opened Extensions

  /** `UPLOAD_DIRECTORY` and `ALLOWED_EXTENSIONS`. */
  datatype Config = Config(uploadDirectory: string, allowedExtensions: set<string>)

  /** The reply and the file write, if any, that a request produces. */
  datatype Handled = Handled(reply: Reply, written: Option<Write>)

  const NoFilesMessage := "Received no files"
  const NoFileSelectedMessage := "No file has been selected"

  /**
   * `upload_file`: GET shows the form. A POST without a `file` part, or whose file name is
   * empty, flashes a message and redirects back. A file whose name is truthy and allowed is
   * saved as `UPLOAD_DIRECTORY/secure_filename(name)` and the browser is sent to the download
   * link of that same name. Anything else shows the form again without a message.
   */
  function UploadFile(request: Request, config: Config, secure: string -> string): (h: Handled)
    ensures request.verb.GET? ==> h == Handled(Reply(None, Render(UploadTemplate)), None)
    ensures request.verb.POST? && "file" !in request.files ==>
      h == Handled(Reply(Some(NoFilesMessage), Redirect(SameUrl)), None)
    ensures request.verb.POST? && "file" in request.files && request.files["file"].filename == Some("") ==>
      h == Handled(Reply(Some(NoFileSelectedMessage), Redirect(SameUrl)), None)
    ensures h.written.Some? <==>
      && request.verb.POST?
      && "file" in request.files
      && Truthy(request.files["file"].filename)
      && AllowedFile(request.files["file"].filename.value, config.allowedExtensions)
    ensures h.written.Some? ==>
      var file := request.files["file"];
      var name := secure(file.filename.value);
      && h.written.value == Write(Join(config.uploadDirectory, name), file.content)
      && h.reply == Reply(None, Redirect(DownloadFile(name)))
    ensures request.verb.POST? && "file" in request.files && request.files["file"].filename != Some("")
            && h.written.None? ==>
      h.reply == Reply(None, Render(UploadTemplate))
  {
    if request.verb.GET? then
      Handled(Reply(None, Render(UploadTemplate)), None)
    else if "file" !in request.files then
      Handled(Reply(Some(NoFilesMessage), Redirect(SameUrl)), None)
    else
      var file := request.files["file"];
      if file.filename == Some("") then
        Handled(Reply(Some(NoFileSelectedMessage), Redirect(SameUrl)), None)
      else if Truthy(file.filename) && AllowedFile(file.filename.value, config.allowedExtensions) then
        var filename := secure(file.filename.value);
        Handled(Reply(None, Redirect(DownloadFile(filename))), Some(Write(Join(config.uploadDirectory, filename), file.content)))
      else
        Handled(Reply(None, Render(UploadTemplate)), None)
  }

  /** `download_file(name)`: serve `name` from the upload directory. */
  function ServeUpload(config: Config, name: string): (d: Download)
    ensures d.root == config.uploadDirectory && d.path == name
  {
    Download(config.uploadDirectory, name)
  }

  /** The download link an accepted upload redirects to serves the path it wrote. */
  lemma UploadThenDownload(request: Request, config: Config, secure: string -> string)
    requires UploadFile(request, config, secure).written.Some?
    ensures var h := UploadFile(request, config, secure);
      && h.reply.response.Redirect? && h.reply.response.to.DownloadFile?
      && var d := ServeUpload(config, h.reply.response.to.name);
         Join(d.root, d.path) == h.written.value.path
  {
  }

  /**
   * Without a uniqueness suffix, a second accepted upload with the same client file name
   * writes to the same path and replaces the first file's bytes.
   */
  lemma SameNameOverwrites(r1: Request, r2: Request, config: Config, secure: string -> string,
                           disk: map<string, Bytes>)
    requires UploadFile(r1, config, secure).written.Some?
    requires UploadFile(r2, config, secure).written.Some?
    requires r1.files["file"].filename == r2.files["file"].filename
    ensures var w1, w2 := UploadFile(r1, config, secure).written.value, UploadFile(r2, config, secure).written.value;
      && w1.path == w2.path
      && ApplyWrite(ApplyWrite(disk, w1), w2) == ApplyWrite(disk, w2)
      && ApplyWrite(ApplyWrite(disk, w1), w2)[w1.path] == r2.files["file"].content
  {
  }
}
