/** The application factory `create_app` of the package revision: its configuration. */
module AppFactory {
  import opened Wrappers
  import opened Web
  import opened Extensions
  import FlatUpload

  /** The configuration `create_app` builds from the `UPLOAD_DIRECTORY` environment variable. */
  function CreateAppConfig(uploadDirectory: string): (c: FlatUpload.Config)
    ensures c.uploadDirectory == uploadDirectory
    ensures c.allowedExtensions == DefaultAllowedExtensions
  {
    FlatUpload.Config(uploadDirectory, {".txt", ".png", ".jpg", ".jpeg", ".gif"})
  }

  function UploadRequest(filename: string, content: Bytes): Request {
    Request(POST, map["file" := FileStorage(Some(filename), content)], map[])
  }

  /**
   * With the factory's allow-list, `photo.JPG` is saved under its secured name and linked,
   * while `malware.exe` is neither saved nor flashed about: the form is simply shown again.
   */
  lemma CreateAppUploads(uploadDirectory: string, secure: string -> string, content: Bytes)
    ensures var h := FlatUpload.UploadFile(UploadRequest("photo.JPG", content), CreateAppConfig(uploadDirectory), secure);
      && h.written == Some(Write(PosixPath.Join(uploadDirectory, secure("photo.JPG")), content))
      && h.reply == Reply(None, Redirect(DownloadFile(secure("photo.JPG"))))
    ensures FlatUpload.UploadFile(UploadRequest("malware.exe", content), CreateAppConfig(uploadDirectory), secure)
      == FlatUpload.Handled(Reply(None, Render(UploadTemplate)), None)
  {
    DefaultExamples();
  }
}
