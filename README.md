# the-tempest: a Dafny model of the upload, authentication and connection-cache logic

the-tempest is a small Flask file-sharing site. Visitors upload files through a form. Only
files with an allow-listed extension are kept, and the site answers with a download link. In
the blueprint revision (`src/filesharing.py`) each file is stored under its secured name with a
uuid added, in a subdirectory named after the uploader's login when someone is logged in. A
metadata record goes into a MongoDB `files` collection, and every download touches that
record's `last_access`. Users register and log in through the authentication blueprint
(`src/auth.py`), whose users live in a second collection. The MongoDB client and database are
cached per application context in Flask's `g` (`src/database.py`). Two earlier revisions,
the `create_app` factory (`src/__init__.py`) and the single-module site (`src/site.py`), have
a simpler upload handler: it saves every accepted file directly under its secured name.

The model is split into these modules:

- `PosixPath` (`posixpath.dfy`): the parts of Python's `os.path` the code uses.
  - `splitext`, with its rule that leading dots of the last component are not an extension.
  - The two-argument `join`.
  - ASCII `str.lower`.
- `DocumentStore` (`documentstore.dfy`): a collection as pymongo uses it here.
  - `insert_one` appends a document with a fresh `_id`.
  - `find_one` returns the first match.
  - `update_one` changes the first match.
  - `Collection` is a class whose `docs` sequence and id counter the methods update.
- `Web` (`web.dfy`): the request a handler reads and the reply it produces.
  - A reply is the flashed message plus the rendered template, redirect route or 400.
  - A `Write` is the file write a handler performs.
- `Extensions` (`extensions.dfy`): `allowed_file`. The three revisions define it with one body and differ only in where the allow-list comes from.
- `FileSharing` (`filesharing.dfy`): `save_file`, `get_download_link` and `upload_file` of the blueprint revision.
- `Auth` (`auth.dfy`): these views of the authentication blueprint:
  - `register`;
  - `login`;
  - `load_logged_in_user`;
  - `logout`;
  - `login_required`.
- `Database` (`database.dfy`): `get_client`, `get_db` and `close_connection` as methods of a class holding `g`.
- `FlatUpload`, `AppFactory`, `Site` (`flatupload.dfy`, `appfactory.dfy`, `site.dfy`): the shared `upload_file` of the two earlier revisions, and each revision's configuration.

Foreign functions are parameters:

- werkzeug's `secure_filename` is `secure`.
- `uuid4()` is `uuid`.
- `datetime.utcnow()` is `now`.
- `generate_password_hash` and `check_password_hash` are `hash` and `check`.
- The logged-in user `g.user` is `user`.
- `storeFails` stands for any exception inside the `try` block of `register`: hashing the password, reading the clock, or `insert_one`.

The operations assume nothing about what these functions return. A few lemmas do take an
assumption about them as a precondition; "## Left out" lists each one. `splitext` and `join`
are modelled from their documented POSIX behaviour, and their rows below cite the lines that
call them.

Some facts about the code:

- The stored name keeps the secured name's extension exactly as written, with no case folding.
- The login used as a directory name is not sanitised.
- No index and no duplicate-name check protects the files collection.
- A download touches the first record with that stored name, whatever the directory.

## Model

| member | source | states |
|---|---|---|
| PosixPath.RFind | src/filesharing.py:64 | the last index of a character, or -1: the character is at that index and nowhere after it |
| PosixPath.Splitext | src/filesharing.py:53 | the two parts concatenate back to the name; the extension is empty or a dot followed by no dot and no separator |
| PosixPath.SplitextAt | src/filesharing.py:64 | at a valid split point (last dot of the last component, preceded in that component by a non-dot) `splitext` splits exactly there |
| PosixPath.SplitextFindsSplit | src/filesharing.py:64 | the extension is non-empty iff a valid split point exists |
| PosixPath.SplitextLower | src/filesharing.py:53 | splitting then lower-casing equals lower-casing then splitting |
| PosixPath.Join | src/filesharing.py:71 | an absolute second part replaces the first; otherwise the second part is appended, with a separator in between exactly when the first part is non-empty and does not end in one |
| PosixPath.JoinEndsWith | src/filesharing.py:103 | a joined path always ends with its second part |
| PosixPath.LowerSpec | src/filesharing.py:53 | `.lower()` leaves no ASCII capital, turns each capital into the small letter at the same alphabet position, and keeps every other character |
| PosixPath.JoinInjective | src/filesharing.py:74 | one directory joined with two different names of the same kind gives two different paths |
| PosixPath.JoinAssociative | src/filesharing.py:71-74 | `join(join(a, b), c) == join(a, join(b, c))` for a non-empty `b` |
| DocumentStore.FindFirst | src/auth.py:108 | the index of the first match, and None iff nothing matches |
| DocumentStore.FindOne | src/auth.py:108 | a document that matches iff one exists, and it is the first match, the one `FindFirst` finds |
| DocumentStore.UpdateFirst | src/filesharing.py:97-100 | same length; an element changes only if it is the first match, and the first match becomes `f` of itself |
| DocumentStore.UpdateFirstSpec | src/filesharing.py:97-100 | only the first matching element changes, and with no match nothing changes |
| DocumentStore.UpdateBody | src/auth.py:121-124 | the first document whose body matches gets the changed body under the same id; every other document is unchanged |
| DocumentStore.IdsUnique | src/filesharing.py:85 | documents of a well-formed collection have distinct ids |
| DocumentStore.Collection.InsertOne | src/filesharing.py:85 | appends exactly one document under a fresh id and advances the id counter by one |
| DocumentStore.Collection.UpdateOne | src/filesharing.py:97-100 | the documents become `UpdateBody` of the old ones; the id counter does not move |
| Extensions.AllowedFile | src/filesharing.py:48-53 | a name with an extension is allowed iff its lower-cased extension is listed; a name without one iff `""` is listed |
| Extensions.NoExtensionRejected | src/filesharing.py:48-53 | a name with no dot, or only a leading dot, is rejected |
| Extensions.AllowedFileIgnoresCase | src/__init__.py:47-51 | names that are equal up to ASCII case are both allowed or both rejected |
| Extensions.DefaultExamples | src/site.py:19-23 | with the default list `photo.JPG` is allowed, while `malware.exe` and `.gif` are rejected |
| FileSharing.StoredName | src/filesharing.py:64-66 | the stored name is the secured name with `-uuid` inserted right after the stem: removing those characters gives the secured name back |
| FileSharing.StoredNameSplit | src/filesharing.py:61-66 | the stored name splits into stem-dash-uuid and the secured name's extension, verbatim |
| FileSharing.StoredNamesDiffer | src/filesharing.py:65-66 | different uuids give different stored names |
| FileSharing.Uploader | src/filesharing.py:68 | a login iff a user is loaded, and then that user's login |
| FileSharing.Place | src/filesharing.py:68-83 | anonymous uploads go to the root with no uploader or location; a user's go to `root/login`, and the record names the login as uploader and location; both timestamps equal the save time |
| FileSharing.SaveFile | src/filesharing.py:56-88 | writes the content under the stored name in that directory, appends exactly that one record, and returns the record's filename and location |
| FileSharing.SavedPathsDiffer | src/filesharing.py:65-74 | two saves of one file by one uploader share a directory but never a path |
| FileSharing.TouchFile | src/filesharing.py:97-100 | only the first record with that stored name changes, and only in `last_access`; with no such record nothing changes |
| FileSharing.Served | src/filesharing.py:102-108 | served from the upload directory, at a path that ends with the requested name; the name alone when the directory is falsy |
| FileSharing.GetDownloadLink | src/filesharing.py:91-108 | touches the records as `TouchFile` says, whatever the directory, then serves `directory/name` or `name` from the upload directory |
| FileSharing.UploadRedirectServesSavedFile | src/filesharing.py:137-145 | the route an accepted upload redirects to serves exactly the path it wrote |
| FileSharing.DownloadTouchesSavedRecord | src/filesharing.py:85-100 | a download of a just-saved name touches that record and no other, and leaves `uploaded <= last_access` |
| FileSharing.Screen | src/filesharing.py:132-147 | no file or an empty name means nothing selected; a truthy name that passes `allowed_file` is accepted; anything else is an invalid type |
| FileSharing.AfterSave | src/filesharing.py:138-145 | the directory route iff the returned location is truthy, the plain route otherwise |
| FileSharing.UploadFile | src/filesharing.py:126-149 | GET renders the form; nothing selected or an invalid type flashes the exact message, saves nothing and changes no record; an accepted file is saved, recorded and redirected to |
| Auth.Validate | src/auth.py:49-92 | reports the first failing check in the order empty login, empty password, login length, password length, taken login; it reports nothing when none fails |
| Auth.Message | src/auth.py:50-92 | each failure's flashed text; the length texts give both configured bounds |
| Auth.MessagesDistinct | src/auth.py:50-92 | two different failures never flash the same text |
| Auth.NatToString | src/auth.py:61-62 | the decimal text of a bound: digits only, with no leading zero |
| Auth.NatToStringRoundTrip | src/auth.py:61-62 | reading the decimal text back gives the number |
| Auth.IntToString | src/auth.py:59-73 | Python's `str` of a configured bound: non-empty, and it starts with a minus sign exactly when the bound is negative |
| Auth.IntToStringRoundTrip | src/auth.py:59-73 | parsing the text of a bound back gives the bound, sign included |
| Auth.NewUser | src/auth.py:78-84 | the new user has the given login, `hash(pw)` as password, and both timestamps equal to the registration time |
| Auth.LengthBoundsInclusive | src/auth.py:54-73 | lengths equal to either bound pass both length checks |
| Auth.RegisterKeepsLoginsUnique | src/auth.py:76-85 | an insert that passed validation keeps logins unique |
| Auth.Register | src/auth.py:41-96 | GET renders; a validation failure or a store error flashes its exact message and leaves the users unchanged; success appends exactly one user with the hashed password and equal timestamps, then redirects to login |
| Auth.Authenticate | src/auth.py:107-112 | an unknown login iff no user has it; otherwise the first user with that login, and whether the hash check accepts the password |
| Auth.TouchLogin | src/auth.py:121-124 | only the first user with that login changes, and only in `last_access`, which becomes the given time; with no such user nothing changes |
| Auth.Login | src/auth.py:99-129 | failures flash "Invalid login" or "Invalid password" and change nothing; success leaves only `user_id` in the session, touches only that user's `last_access`, and redirects to the index |
| Auth.LoginErrorMessage | src/auth.py:108-112 | the flashed text is "Invalid login" exactly when no user has the login, and "Invalid password" exactly when the password check fails |
| Auth.LoadLoggedInUser | src/auth.py:133-142 | no `user_id` means no user; otherwise the user with that id iff one exists |
| Auth.LoadedUserIsOnlyMatch | src/auth.py:142 | ids are unique, so the loaded user is the only document carrying the session's id |
| Auth.LoginResolvesToUser | src/auth.py:119-142 | after a login, the next request loads that same user, with the new `last_access` |
| Auth.RegisterThenLogin | src/auth.py:76-112 | a freshly registered user authenticates with the same password when `check` accepts `hash`'s output |
| Auth.Logout | src/auth.py:145-150 | the session is emptied and the browser goes to the index |
| Auth.LoginRequired | src/auth.py:155-162 | the view runs iff a user is loaded; otherwise redirect to login |
| Database.AppContext.constructor | src/database.py:24 | a new context holds no client and no db |
| Database.AppContext.GetClient | src/database.py:25-32 | a client is created only when none is cached; otherwise `g` is unchanged and the cached client is returned |
| Database.AppContext.GetDb | src/database.py:35-41 | the db is memoised under `"db"`: a cached one is returned with nothing created; otherwise the client's db is cached; afterwards both entries are present |
| Database.AppContext.CloseConnection | src/database.py:44-51 | a cached client is closed, and both entries are removed; with no client, `g` is unchanged, a cached db included |
| Database.ReconnectAfterClose | src/database.py:27-50 | two `get_db` calls share one client; after `close_connection` the next one opens a fresh client, and only the first is closed |
| FlatUpload.UploadFile | src/site.py:35-54 | GET renders; no `file` part flashes "Received no files"; an empty name flashes "No file has been selected"; it writes iff the name is truthy and allowed, at `UPLOAD_DIRECTORY/secure(name)`, then redirects to that name; otherwise it re-renders with no message |
| FlatUpload.ServeUpload | src/site.py:26-32 | `download_file(name)` serves `name` from the upload directory |
| FlatUpload.UploadThenDownload | src/__init__.py:53-78 | the download link an accepted upload redirects to serves the path it wrote |
| FlatUpload.SameNameOverwrites | src/site.py:49-52 | two accepted uploads with the same name write one path, and the second content replaces the first |
| AppFactory.CreateAppConfig | src/__init__.py:26-34 | the upload directory is the configured one, and the allow-list is the default `.txt .png .jpg .jpeg .gif` |
| AppFactory.CreateAppUploads | src/__init__.py:61-80 | under the factory's list `photo.JPG` is saved and linked; `malware.exe` saves nothing and re-renders with no message |
| Site.MainConfig | src/site.py:75-87 | the upload directory is `./uploaded_files`, and the allow-list is the default one |
| Site.NotesOverwrite | src/site.py:49-52 | under the site's configuration two uploads of `notes.txt` write the same path, and the second replaces the first |

## Left out

- Byte streaming and disk I/O are left out. `file.save` is the `Write` value a handler returns, and `send_from_directory` is the `Download` value naming what would be served. werkzeug's `safe_join` checks inside `send_from_directory` are not modelled.
- `makedirs` for the user's directory, `create_app`'s environment loading, the directory bootstrap and `exit(2)` are not modelled. Neither are the `__main__` block's logging, secret key and `app.run`. Only the configuration values are kept.
- Template rendering is left out. So are `flash` storage in the session and `url_for` URL building. A reply names the template, the route with its arguments, and the message.
- `secure_filename`, `uuid4`, `utcnow`, `generate_password_hash` and `check_password_hash` are parameters with no assumed behaviour. Nothing claims the secured name has no separator or an allowed extension.
- FileSharing.SavedPathsDiffer: assumes the two `uuid4()` values differ, as a precondition; the model does not prove it.
- FileSharing.StoredNameSplit: assumes the uuid contains no `.` and no `/`; this holds of `uuid4()`'s text form, which the model does not define.
- Auth.RegisterThenLogin: assumes `check(hash(pw), pw)`, the agreement of werkzeug's hashing and checking functions, which the model does not define.
- FileSharing.DownloadTouchesSavedRecord: assumes no earlier record has the stored name. With distinct uuids this holds, but nothing in the code enforces it.
- `Lower` folds ASCII letters only; Python's `str.lower` also folds other Unicode letters.
- MongoDB is a sequence of documents. ObjectId `_id`s are counter values, and the bson/JSON round trip that stores the id in the session is left out. Only find-first, append and update-first are modelled.
- `get_users_collection`, which `src/auth.py` imports, is not defined in `src/database.py`. The users collection is a `Collection<UserData>` passed to the views.
- The `FileInfo` dataclass in `src/database.py` is never used by the code here, so it is not modelled.
- A missing form field in `register` or `login` raises inside werkzeug. It is modelled as the `BadRequest` reply.
- The download routes in all revisions accept both GET and POST and do the same for both, so the verb is not a parameter of `GetDownloadLink`.
- Nothing in the model makes `now` monotonic. `uploaded <= last_access` holds only when the clock did not go back.
- Concurrency is left out, including the race between the uniqueness check and the insert in `register`. Every view runs sequentially.
- Logging is left out.
- `src/profile.py` is not part of this model. It only renders a page and imports a function that `src/database.py` does not define.
- `Auth.Session` stores the user id; the session's other uses (flashed messages) are folded into `Reply`.
