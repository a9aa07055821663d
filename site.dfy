/** The single-module site revision: the configuration its `__main__` block installs. */
module Site {
  import opened Wrappers
  import opened PosixPath
  import opened Web
  import opened Extensions
  import FlatUpload

  /** `UPLOAD_DIRECTORY = join(".", "uploaded_files")` and the allow-list of the main block. */
  function MainConfig(): (c: FlatUpload.Config)
    ensures c.uploadDirectory == "./uploaded_files"
    ensures c.allowedExtensions == DefaultAllowedExtensions
  {
    FlatUpload.Config(Join(".", "uploaded_files"), {".txt", ".png", ".jpg", ".jpeg", ".gif"})
  }

  /**
   * Under the site's configuration an accepted upload lands directly in `./uploaded_files`
   * under its secured name, so two uploads of `notes.txt` share one file on disk.
   */
  lemma NotesOverwrite(content1: Bytes, content2: Bytes, secure: string -> string, disk: map<string, Bytes>)
    ensures var r1 := Request(POST, map["file" := FileStorage(Some("notes.txt"), content1)], map[]);
      var r2 := Request(POST, map["file" := FileStorage(Some("notes.txt"), content2)], map[]);
      var w1 := FlatUpload.UploadFile(r1, MainConfig(), secure).written;
      var w2 := FlatUpload.UploadFile(r2, MainConfig(), secure).written;
      && w1 == Some(Write(Join("./uploaded_files", secure("notes.txt")), content1))
      && w2 == Some(Write(Join("./uploaded_files", secure("notes.txt")), content2))
      && ApplyWrite(ApplyWrite(disk, w1.value), w2.value) == ApplyWrite(disk, w2.value)
  {
    var notes := "notes.txt";
    assert notes[0] != ExtSep && NoSepBetween(notes, 0, 5);
    assert ValidSplitAt(notes, 5);
    assert Lower(notes[5..]) == ".txt";
    assert AllowedFile(notes, DefaultAllowedExtensions);
    var r1 := Request(POST, map["file" := FileStorage(Some(notes), content1)], map[]);
    var r2 := Request(POST, map["file" := FileStorage(Some(notes), content2)], map[]);
    FlatUpload.SameNameOverwrites(r1, r2, MainConfig(), secure, disk);
  }
}
