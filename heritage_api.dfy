/**
 * The route decisions of the authenticated backend (`backend/app_with_auth.py`):
 * which requests register, log in, create a folder, upload or download a model, and
 * with which status the others are refused. The database, the file system and the
 * account manager's answers are parameters.
 */
module HeritageApi {
  import opened Wrappers
  import JsValue
  import Requests
  import Uploads
  import Auth

  const NOT_ALLOWED: string := "File type not allowed. Supported formats: obj, ply, stl, glb, gltf"

  /** The arguments `register` passes to `register_user`; an optional field that is absent
      is `None` in Python, `JNull` here. */
  datatype RegisterArgs = RegisterArgs(
    username: JsValue.Json, email: JsValue.Json, password: JsValue.Json,
    firstName: JsValue.Json, lastName: JsValue.Json, organization: JsValue.Json, role: JsValue.Json)

  /** `data.get(key)` */
  function Get(data: map<string, JsValue.Json>, key: string, default: JsValue.Json): JsValue.Json
  {
    if key in data then data[key] else default
  }

  /** The field check of `register`: `None` unless `username`, `email` and `password` are
      all present; the role is `researcher` unless the body names one. */
  function RegisterRequest(data: map<string, JsValue.Json>): (a: Option<RegisterArgs>)
    ensures a.Some? <==> "username" in data && "email" in data && "password" in data
    ensures a.Some? ==> (a.value.username == data["username"] && a.value.email == data["email"]
      && a.value.password == data["password"])
    ensures a.Some? ==> a.value.role == (if "role" in data then data["role"] else JsValue.JStr("researcher"))
    ensures a.Some? ==> (a.value.firstName == Get(data, "first_name", JsValue.JNull)
      && a.value.lastName == Get(data, "last_name", JsValue.JNull)
      && a.value.organization == Get(data, "organization", JsValue.JNull))
  {
    if "username" in data && "email" in data && "password" in data then
      Some(RegisterArgs(data["username"], data["email"], data["password"],
        Get(data, "first_name", JsValue.JNull), Get(data, "last_name", JsValue.JNull),
        Get(data, "organization", JsValue.JNull), Get(data, "role", JsValue.JStr("researcher"))))
    else None
  }

  /** `register`, with `register` standing for `register_user`: 400 for missing fields or a
      refused registration (with the manager's error), 201 otherwise. */
  function RegisterReply(data: map<string, JsValue.Json>, register: RegisterArgs -> Auth.Registration): (r: Requests.Reply)
    ensures r.status == 201 <==> RegisterRequest(data).Some? && register(RegisterRequest(data).value).Registered?
    ensures RegisterRequest(data).None? ==> r == Requests.Reply(400, Some("Missing required fields"))
    ensures RegisterRequest(data).Some? && register(RegisterRequest(data).value).RegisterError? ==>
      r == Requests.Reply(400, Some(register(RegisterRequest(data).value).error))
  {
    match RegisterRequest(data)
    case None => Requests.Reply(400, Some("Missing required fields"))
    case Some(args) =>
      match register(args)
      case RegisterError(e) => Requests.Reply(400, Some(e))
      case Registered(_, _, _) => Requests.Reply(201, None)
  }

  /** `login`, with `authenticate` standing for `authenticate_user`: 400 without a body or
      either credential, 401 with the manager's error, 200 on success. */
  function LoginReply(data: Requests.Body, authenticate: (JsValue.Json, JsValue.Json) -> Auth.Login): (r: Requests.Reply)
    ensures (data.None? || "username" !in data.value || "password" !in data.value) ==>
      r == Requests.Reply(400, Some("Username and password required"))
    ensures r.status == 200 <==> (data.Some? && "username" in data.value && "password" in data.value
      && authenticate(data.value["username"], data.value["password"]).LoggedIn?)
    ensures r.status == 401 <==> (data.Some? && "username" in data.value && "password" in data.value
      && authenticate(data.value["username"], data.value["password"]).LoginError?)
  {
    Requests.EmptyBodyTestRedundant(data, "username");
    if Requests.Lacks(data, "username") || "password" !in data.value then
      Requests.Reply(400, Some("Username and password required"))
    else
      match authenticate(data.value["username"], data.value["password"])
      case LoginError(e) => Requests.Reply(401, Some(e))
      case LoggedIn(_, _) => Requests.Reply(200, None)
  }

  /** The name check of `create_folder`: the folder's name and description (empty unless
      given), or `None` when the body or its `name` is missing. */
  function CreateFolderRequest(data: Requests.Body): (f: Option<(JsValue.Json, JsValue.Json)>)
    ensures f.None? <==> data.None? || "name" !in data.value
    ensures f.Some? ==> f.value.0 == data.value["name"] && f.value.1 == Get(data.value, "description", JsValue.JStr(""))
  {
    Requests.EmptyBodyTestRedundant(data, "name");
    if Requests.Lacks(data, "name") then None
    else Some((data.value["name"], Get(data.value, "description", JsValue.JStr(""))))
  }

  /** `create_folder`: the 400 "Folder name is required" exactly when the name check
      refuses the body, otherwise the 201 of the inserted folder. */
  function CreateFolderReply(data: Requests.Body): (r: Requests.Reply)
    ensures r == Requests.Reply(400, Some("Folder name is required")) <==> CreateFolderRequest(data).None?
    ensures r.status == 201 <==> data.Some? && "name" in data.value
    ensures r.status == 201 || r.status == 400
  {
    match CreateFolderRequest(data)
    case None => Requests.Reply(400, Some("Folder name is required"))
    case Some(_) => Requests.Reply(201, None)
  }

  /** `upload_model` in this application: every model format of the viewer is accepted. */
  function UploadModel(folderOwned: bool, filePart: Option<string>, sanitize: string -> string, uuid: string): (o: Uploads.UploadOutcome)
    ensures o.Saved? ==> filePart.Some? && Uploads.Extension(filePart.value) in Uploads.AUTH_EXTENSIONS
    ensures !folderOwned ==> o == Uploads.UploadRejected(404, "Folder not found")
    ensures folderOwned && filePart.Some? && filePart.value != "" && !Uploads.AllowedFile(filePart.value, Uploads.AUTH_EXTENSIONS) ==>
      o == Uploads.UploadRejected(400, NOT_ALLOWED)
  {
    Uploads.CheckOrder(folderOwned, filePart, Uploads.AUTH_EXTENSIONS, NOT_ALLOWED);
    Uploads.Upload(folderOwned, filePart, Uploads.AUTH_EXTENSIONS, NOT_ALLOWED, sanitize, uuid)
  }

  /** How `download_model` answers. */
  datatype Download = DownloadRefused(status: int, error: string) | SendFile(mimeType: string)

  /** `download_model`: 404 when the user owns no such model or its file is gone, else the
      file with the MIME type of its recorded file type. */
  function DownloadModel(fileType: Option<string>, onDisk: bool): (d: Download)
    ensures fileType.None? ==> d == DownloadRefused(404, "Model not found")
    ensures fileType.Some? && !onDisk ==> d == DownloadRefused(404, "File not found on disk")
    ensures d.SendFile? <==> fileType.Some? && onDisk
    ensures d.SendFile? ==> d.mimeType == Uploads.MimeType(fileType.value)
  {
    if fileType.None? then DownloadRefused(404, "Model not found")
    else if !onDisk then DownloadRefused(404, "File not found on disk")
    else SendFile(Uploads.MimeType(fileType.value))
  }

  /** A model saved with its extension kept is served as what it is: an `.obj` as text, a
      `.glb` as binary glTF, a `.gltf` as glTF JSON, and a `.ply` or `.stl` as raw bytes. */
  lemma SavedModelServedByType(folderOwned: bool, filePart: Option<string>, sanitize: string -> string, uuid: string)
    requires filePart.Some? && '.' in sanitize(filePart.value)
    requires Uploads.Extension(sanitize(filePart.value)) == Uploads.Extension(filePart.value)
    ensures var o := UploadModel(folderOwned, filePart, sanitize, uuid);
      o.Saved? ==>
        var m := DownloadModel(Some(o.fileType), true).mimeType;
        && (o.fileType == "obj" ==> m == "text/plain")
        && (o.fileType == "glb" ==> m == "model/gltf-binary")
        && (o.fileType == "gltf" ==> m == "model/gltf+json")
        && (o.fileType in {"ply", "stl"} ==> m == "application/octet-stream")
        && o.fileType in Uploads.AUTH_EXTENSIONS
  {
    Uploads.SavedTypeAllowed(folderOwned, filePart, Uploads.AUTH_EXTENSIONS, NOT_ALLOWED, sanitize, uuid);
  }
}
