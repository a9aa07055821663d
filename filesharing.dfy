/**
 * The file-sharing blueprint: naming an upload, choosing its directory, recording its
 * metadata in the files collection, touching `last_access` on download, and the upload
 * form's outcome. `secure_filename`, `uuid4()` and `utcnow()` are the parameters `secure`,
 * `uuid` and `now`; `g.user` is the parameter `user`.
 */
module FileSharing {
  import opened Wrappers
  import opened PosixPath
  import opened DocumentStore
  import opened Web
  import opened Extensions
  import Auth

  /** The metadata recorded for an uploaded file. */
  datatype FileInfo = FileInfo(
    filename: string,          // the name on disk
    originalName: string,      // the secured name, without the uuid
    uploaded: Time,
    lastAccess: Time,
    uploader: Option<string>,  // the uploader's login; None for an anonymous upload
    location: Option<string>)  // the subdirectory of the upload directory; equals `uploader`

  /** `UPLOAD_DIRECTORY` and `ALLOWED_EXTENSIONS`. */
  datatype Config = Config(uploadDirectory: string, allowedExtensions: set<string>)

  // ---------------------------------------------------------------------------------------
  // Naming

  /** The name on disk: the secured name's stem, a dash, the uuid, then its extension. */
  function StoredName(secured: string, uuid: string): (stored: string)
    ensures |stored| == |secured| + 1 + |uuid|
    ensures var stem := Splitext(secured).0;
      && stored[|stem|..|stem| + 1 + |uuid|] == "-" + uuid
      && stored[..|stem|] + stored[|stem| + 1 + |uuid|..] == secured
  {
    var (name, extension) := Splitext(secured);
    name + "-" + uuid + extension
  }

  predicate NoDotOrSepIn(s: string) {
    forall k :: 0 <= k < |s| ==> s[k] != ExtSep && s[k] != Sep
  }

  /**
   * Splitting the stored name gives back the secured name's extension, verbatim, and the
   * secured name's stem followed by "-" and the uuid; so the secured name is recoverable.
   * This holds for any uuid that has no dot and no separator.
   */
  lemma StoredNameSplit(secured: string, uuid: string)
    requires NoDotOrSepIn(uuid)
    ensures Splitext(StoredName(secured, uuid)) == (Splitext(secured).0 + "-" + uuid, Splitext(secured).1)
  {
    SplitextFindsSplit(secured);
    if Splitext(secured).1 != [] {
      var i :| ValidSplitAt(secured, i);
      StoredNameSplitAt(secured, uuid, i);
    } else {
      StoredNameNoSplit(secured, uuid);
    }
  }

  lemma StoredNameSplitAt(secured: string, uuid: string, i: int)
    requires NoDotOrSepIn(uuid) && ValidSplitAt(secured, i)
    ensures Splitext(StoredName(secured, uuid)) == (Splitext(secured).0 + "-" + uuid, Splitext(secured).1)
  {
    SplitextAt(secured, i);
    var stem, ext := secured[..i], secured[i..];
    var stored := stem + "-" + uuid + ext;
    assert StoredName(secured, uuid) == stored;
    var j := |stem| + 1 + |uuid|;
    assert stored[j..] == ext && stored[..j] == stem + "-" + uuid;
    forall m | j < m < |stored| ensures stored[m] != ExtSep && stored[m] != Sep {
      assert stored[m] == secured[m - j + i];
    }
    assert stored[|stem|] == '-' && NoSepBetween(stored, |stem|, j);
    assert ValidSplitAt(stored, j);
    SplitextAt(stored, j);
  }

  lemma StoredNameNoSplit(secured: string, uuid: string)
    requires NoDotOrSepIn(uuid) && forall i :: !ValidSplitAt(secured, i)
    ensures Splitext(StoredName(secured, uuid)) == (Splitext(secured).0 + "-" + uuid, Splitext(secured).1)
  {
    SplitextFindsSplit(secured);
    var stored := secured + "-" + uuid;
    assert StoredName(secured, uuid) == stored;
    assert forall m :: 0 <= m < |secured| ==> stored[m] == secured[m];
    forall i ensures !ValidSplitAt(stored, i) {
      if ValidSplitAt(stored, i) {
        assert i < |secured|;
        var k :| 0 <= k < i && stored[k] != ExtSep && NoSepBetween(stored, k, i);
        assert secured[k] != ExtSep && NoSepBetween(secured, k, i);
        assert ValidSplitAt(secured, i);
      }
    }
    SplitextFindsSplit(stored);
  }

  /** Two uploads of the same file with different uuids never share a stored name. */
  lemma StoredNamesDiffer(secured: string, uuid1: string, uuid2: string)
    requires uuid1 != uuid2
    ensures StoredName(secured, uuid1) != StoredName(secured, uuid2)
  {
    var prefix := Splitext(secured).0 + "-";
    assert StoredName(secured, uuid1)[|prefix|..|prefix| + |uuid1|] == uuid1;
    assert StoredName(secured, uuid2)[|prefix|..|prefix| + |uuid2|] == uuid2;
  }

  // ---------------------------------------------------------------------------------------
  // Placement and the record

  /** `g.user.get("login") if g.user else None`. */
  function Uploader(user: Option<Auth.UserDoc>): (uploader: Option<string>)
    ensures uploader.Some? <==> user.Some?
    ensures uploader.Some? ==> uploader.value == user.value.body.login
  {
    if user.Some? then Some(user.value.body.login) else None
  }

  /** Where an upload goes and the record that describes it. */
  datatype Placement = Placement(directory: string, record: FileInfo)

  /**
   * `save_file`'s naming and partitioning: anonymous uploads go to the upload directory and
   * record no uploader or location; a logged-in user's go to the subdirectory named by the
   * login, which the record names as both uploader and location. (A user whose login is
   * empty is falsy: their files go to the root but still record `""`.) The record's two
   * timestamps coincide and its original name is the secured name.
   */
  function Place(root: string, user: Option<Auth.UserDoc>, secured: string, uuid: string, now: Time)
    : (p: Placement)
    ensures p.record.filename == StoredName(secured, uuid)
    ensures p.record.originalName == secured
    ensures p.record.uploaded == now && p.record.lastAccess == now
    ensures p.record.uploader == p.record.location
    ensures user.None? ==> p.directory == root && p.record.location == None
    ensures user.Some? ==> p.record.location == Some(user.value.body.login)
    ensures user.Some? && user.value.body.login != "" ==> p.directory == Join(root, user.value.body.login)
    ensures user.Some? && user.value.body.login == "" ==> p.directory == root
  {
    var uploader := Uploader(user);
    var savepath := if Truthy(uploader) then Join(root, uploader.value) else root;
    Placement(savepath, FileInfo(StoredName(secured, uuid), secured, now, now, uploader, uploader))
  }

  /**
   * `save_file(file, filename)`: write the bytes under the stored name in the chosen
   * directory, append one record to the files collection, and return the stored name and
   * the location, which are the record's `filename` and `location`.
   */
  method SaveFile(files: Collection<FileInfo>, config: Config, user: Option<Auth.UserDoc>,
                  file: FileStorage, filename: Option<string>,
                  secure: string -> string, uuid: string, now: Time)
    returns (name: string, location: Option<string>, written: Write)
    requires files.Valid()
    requires Truthy(filename) || file.filename.Some?
    modifies files
    ensures files.Valid()
    ensures var p := Place(config.uploadDirectory, user,
                           secure(if Truthy(filename) then filename.value else file.filename.value), uuid, now);
      && name == p.record.filename
      && location == p.record.location
      && written == Write(Join(p.directory, name), file.content)
      && files.docs == old(files.docs) + [Doc(old(files.nextId), p.record)]
      && files.nextId == old(files.nextId) + 1
  {
    var secured := secure(if Truthy(filename) then filename.value else file.filename.value);
    var p := Place(config.uploadDirectory, user, secured, uuid, now);
    written := Write(Join(p.directory, p.record.filename), file.content);
    var _ := files.InsertOne(p.record);
    name, location := p.record.filename, p.record.location;
  }

  /**
   * Two saves of the same file by the same uploader go to the same directory but, with
   * different uuids, to different paths: unlike the earlier revisions, nothing is overwritten.
   */
  lemma SavedPathsDiffer(root: string, user: Option<Auth.UserDoc>, secured: string,
                         uuid1: string, uuid2: string, t1: Time, t2: Time)
    requires uuid1 != uuid2
    ensures var p1, p2 := Place(root, user, secured, uuid1, t1), Place(root, user, secured, uuid2, t2);
      && p1.directory == p2.directory
      && Join(p1.directory, p1.record.filename) != Join(p2.directory, p2.record.filename)
  {
    var p1, p2 := Place(root, user, secured, uuid1, t1), Place(root, user, secured, uuid2, t2);
    StoredNamesDiffer(secured, uuid1, uuid2);
    var prefix := Splitext(secured).0 + "-";
    assert StoredName(secured, uuid1)[0] == prefix[0] == StoredName(secured, uuid2)[0];
    JoinInjective(p1.directory, p1.record.filename, p2.record.filename);
  }

  // ---------------------------------------------------------------------------------------
  // Download

  function FilenameIs(name: string): FileInfo -> bool {
    (f: FileInfo) => f.filename == name
  }

  function SetFileAccess(now: Time): FileInfo -> FileInfo {
    (f: FileInfo) => f.(lastAccess := now)
  }

  /**
   * `update_one({"filename": name}, {"$set": {"last_access": now}})`: only the first record
   * with that stored name changes, and only in `last_access`; with no such record nothing
   * changes.
   */
  function TouchFile(docs: seq<Doc<FileInfo>>, name: string, now: Time): (r: seq<Doc<FileInfo>>)
    ensures |r| == |docs|
    ensures forall i :: 0 <= i < |r| ==>
      r[i].id == docs[i].id && r[i].body.(lastAccess := docs[i].body.lastAccess) == docs[i].body
    ensures forall i :: 0 <= i < |r| && r[i] != docs[i] ==>
      docs[i].body.filename == name && forall j :: 0 <= j < i ==> docs[j].body.filename != name
    ensures forall i ::
      (0 <= i < |docs| && docs[i].body.filename == name &&
       forall j :: 0 <= j < i ==> docs[j].body.filename != name) ==> r[i].body.lastAccess == now
    ensures (forall i :: 0 <= i < |docs| ==> docs[i].body.filename != name) ==> r == docs
  {
    var r := UpdateBody(docs, FilenameIs(name), SetFileAccess(now));
    assert forall i :: 0 <= i < |docs| ==> OnBody(FilenameIs(name))(docs[i]) == (docs[i].body.filename == name);
    r
  }

  /** The file a download link names: `directory/name` (or `name`) under the upload directory. */
  function Served(root: string, name: string, directory: Option<string>): (d: Download)
    ensures d.root == root
    ensures |name| <= |d.path| && d.path[|d.path| - |name|..] == name
    ensures !Truthy(directory) ==> d.path == name
  {
    JoinEndsWith(if directory.Some? then directory.value else "", name);
    Download(root, if Truthy(directory) then Join(directory.value, name) else name)
  }

  /**
   * `get_download_link(name, directory)`: touch the first record with this stored name,
   * whatever the directory, then serve `directory/name` (or `name`) from the upload
   * directory.
   */
  method GetDownloadLink(files: Collection<FileInfo>, config: Config, name: string,
                         directory: Option<string>, now: Time)
    returns (d: Download)
    requires files.Valid()
    modifies files
    ensures files.Valid() && files.nextId == old(files.nextId)
    ensures files.docs == TouchFile(old(files.docs), name, now)
    ensures d == Served(config.uploadDirectory, name, directory)
  {
    files.UpdateOne(FilenameIs(name), SetFileAccess(now));
    var path := if Truthy(directory) then Join(directory.value, name) else name;
    d := Download(config.uploadDirectory, path);
  }

  /**
   * The route an accepted upload redirects to serves exactly the path the upload wrote:
   * `root/login/name` for a user with a non-empty login, `root/name` otherwise.
   */
  lemma UploadRedirectServesSavedFile(root: string, user: Option<Auth.UserDoc>, secured: string,
                                      uuid: string, now: Time)
    ensures var p := Place(root, user, secured, uuid, now);
      var route := AfterSave(p.record.filename, p.record.location);
      var d := Served(root, route.name, if route.DownloadFromDirectory? then Some(route.directory) else None);
      Join(d.root, d.path) == Join(p.directory, p.record.filename)
  {
    var p := Place(root, user, secured, uuid, now);
    if Truthy(p.record.location) {
      JoinAssociative(root, p.record.location.value, p.record.filename);
    }
  }

  /**
   * The record a save appends is the one a later download of its stored name touches,
   * provided no earlier record has that stored name; and then `uploaded <= last_access`
   * as long as the clock has not gone back.
   */
  lemma DownloadTouchesSavedRecord(docs: seq<Doc<FileInfo>>, id: Oid, p: Placement, later: Time)
    requires forall i :: 0 <= i < |docs| ==> docs[i].body.filename != p.record.filename
    requires p.record.uploaded <= later
    ensures var after := TouchFile(docs + [Doc(id, p.record)], p.record.filename, later);
      && after[..|docs|] == docs
      && after[|docs|] == Doc(id, p.record.(lastAccess := later))
      && after[|docs|].body.uploaded <= after[|docs|].body.lastAccess
  {
    var all := docs + [Doc(id, p.record)];
    var after := TouchFile(all, p.record.filename, later);
    assert forall j :: 0 <= j < |docs| ==> all[j].body.filename != p.record.filename;
    assert forall i :: 0 <= i < |docs| ==> after[i] == docs[i];
    assert after[|docs|].body == p.record.(lastAccess := later);
  }

  // ---------------------------------------------------------------------------------------
  // The upload form

  const NoFileMessage := "No file has been selected"
  const InvalidTypeMessage := "Invalid file type, please try something else"

  datatype Screening = NoFileSelected | InvalidType | Accepted(file: FileStorage)

  /**
   * The tests `upload_file` makes on a POST before saving: no `file` part or an empty file
   * name means nothing was selected; a file whose name is truthy and passes `allowed_file` is
   * accepted; anything else (a disallowed extension, or a `None` file name, which makes the
   * storage falsy) is an invalid type.
   */
  function Screen(request: Request, allowed: set<string>): (s: Screening)
    ensures s == NoFileSelected <==>
      "file" !in request.files || request.files["file"].filename == Some("")
    ensures s.Accepted? <==>
      && "file" in request.files
      && Truthy(request.files["file"].filename)
      && AllowedFile(request.files["file"].filename.value, allowed)
    ensures s.Accepted? ==> s.file == request.files["file"]
  {
    var file := if "file" in request.files then Some(request.files["file"]) else None;
    if file.None? || file.value.filename == Some("") then NoFileSelected
    else if Truthy(file.value.filename) && AllowedFile(file.value.filename.value, allowed) then
      Accepted(file.value)
    else InvalidType
  }

  /** The redirect after a save: the directory route iff the returned location is truthy. */
  function AfterSave(name: string, location: Option<string>): (r: Route)
    ensures r.DownloadFromDirectory? <==> Truthy(location)
    ensures r.DownloadFromDirectory? ==> r == DownloadFromDirectory(location.value, name)
    ensures r.DownloadFile? <==> !Truthy(location)
    ensures r.DownloadFile? ==> r.name == name
  {
    if Truthy(location) then DownloadFromDirectory(location.value, name) else DownloadFile(name)
  }

  /**
   * `upload_file`: GET shows the form; a POST that selects no file or a file of the wrong type
   * flashes a message, saves nothing and shows the form again; an accepted file is saved and
   * the browser is sent to its download link.
   */
  method UploadFile(files: Collection<FileInfo>, config: Config, user: Option<Auth.UserDoc>,
                    request: Request, secure: string -> string, uuid: string, now: Time)
    returns (reply: Reply, written: Option<Write>)
    requires files.Valid()
    modifies files
    ensures files.Valid()
    ensures request.verb == GET ==>
      reply == Reply(None, Render(UploadTemplate)) && written == None && unchanged(files)
    ensures request.verb == POST ==>
      match Screen(request, config.allowedExtensions)
      case NoFileSelected =>
        reply == Reply(Some(NoFileMessage), Render(UploadTemplate)) && written == None && unchanged(files)
      case InvalidType =>
        reply == Reply(Some(InvalidTypeMessage), Render(UploadTemplate)) && written == None && unchanged(files)
      case Accepted(file) =>
        var p := Place(config.uploadDirectory, user, secure(file.filename.value), uuid, now);
        && written == Some(Write(Join(p.directory, p.record.filename), file.content))
        && files.docs == old(files.docs) + [Doc(old(files.nextId), p.record)]
        && files.nextId == old(files.nextId) + 1
        && reply == Reply(None, Redirect(AfterSave(p.record.filename, p.record.location)))
  {
    if request.verb == GET {
      return Reply(None, Render(UploadTemplate)), None;
    }
    match Screen(request, config.allowedExtensions)
    case NoFileSelected =>
      reply, written := Reply(Some(NoFileMessage), Render(UploadTemplate)), None;
    case InvalidType =>
      reply, written := Reply(Some(InvalidTypeMessage), Render(UploadTemplate)), None;
    case Accepted(file) =>
      var name, location, w := SaveFile(files, config, user, file, None, secure, uuid, now);
      reply, written := Reply(None, Redirect(AfterSave(name, location))), Some(w);
  }
}
