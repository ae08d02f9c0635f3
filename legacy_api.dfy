/**
 * The route decisions of the older backend without accounts (`backend/app.py`): folder
 * create, rename and delete, and the model upload with its smaller set of formats.
 * `rowcount` is what the database reports for the statement the route ran.
 */
module LegacyApi {
  import opened Wrappers
  import JsValue
  import Requests
  import Uploads
  import HeritageApi

  /** `create_folder`: 400 without a body or a `name`, otherwise 201. */
  function CreateFolderReply(data: Requests.Body): (r: Requests.Reply)
    ensures r.status == 201 <==> data.Some? && "name" in data.value
    ensures r.status != 201 ==> r == Requests.Reply(400, Some("Folder name is required"))
  {
    Requests.EmptyBodyTestRedundant(data, "name");
    if Requests.Lacks(data, "name") then Requests.Reply(400, Some("Folder name is required"))
    else Requests.Reply(201, None)
  }

  /** Both applications answer a folder-creation body the same way. */
  lemma CreateFolderAgrees(data: Requests.Body)
    ensures CreateFolderReply(data) == HeritageApi.CreateFolderReply(data)
  {
  }

  /** `update_folder`: the name check comes before the update (so a bad body on an unknown
      folder is a 400), then a 404 when the update touched no row. */
  function UpdateFolderReply(data: Requests.Body, rowcount: nat): (r: Requests.Reply)
    ensures (data.None? || "name" !in data.value) ==> r == Requests.Reply(400, Some("Folder name is required"))
    ensures data.Some? && "name" in data.value && rowcount == 0 ==> r == Requests.Reply(404, Some("Folder not found"))
    ensures r.status == 200 <==> data.Some? && "name" in data.value && rowcount > 0
  {
    Requests.EmptyBodyTestRedundant(data, "name");
    if Requests.Lacks(data, "name") then Requests.Reply(400, Some("Folder name is required"))
    else if rowcount == 0 then Requests.Reply(404, Some("Folder not found"))
    else Requests.Reply(200, None)
  }

  /** `delete_folder`: 404 when the delete touched no row, otherwise 200. */
  function DeleteFolderReply(rowcount: nat): (r: Requests.Reply)
    ensures r.status == 200 <==> rowcount > 0
    ensures rowcount == 0 ==> r == Requests.Reply(404, Some("Folder not found"))
  {
    if rowcount == 0 then Requests.Reply(404, Some("Folder not found")) else Requests.Reply(200, None)
  }

  /** `upload_model` in this application: only `obj`, `ply` and `stl`. */
  function UploadModel(folderFound: bool, filePart: Option<string>, sanitize: string -> string, uuid: string): (o: Uploads.UploadOutcome)
    ensures o.Saved? ==> filePart.Some? && Uploads.Extension(filePart.value) in Uploads.LEGACY_EXTENSIONS
    ensures !folderFound ==> o == Uploads.UploadRejected(404, "Folder not found")
    ensures folderFound && filePart.Some? && filePart.value != "" && !Uploads.AllowedFile(filePart.value, Uploads.LEGACY_EXTENSIONS) ==>
      o == Uploads.UploadRejected(400, "File type not allowed")
  {
    Uploads.CheckOrder(folderFound, filePart, Uploads.LEGACY_EXTENSIONS, "File type not allowed");
    Uploads.Upload(folderFound, filePart, Uploads.LEGACY_EXTENSIONS, "File type not allowed", sanitize, uuid)
  }

  /** The older application saves only what the authenticated one would save (for a folder
      the user owns there), under the same name and type; a `.glb` or `.gltf` upload it
      refuses with a 400. */
  lemma SavesLessThanHeritage(folderFound: bool, filePart: Option<string>, sanitize: string -> string, uuid: string)
    ensures var o := UploadModel(folderFound, filePart, sanitize, uuid);
      var p := HeritageApi.UploadModel(folderFound, filePart, sanitize, uuid);
      o.Saved? ==> p == o
    ensures folderFound && filePart.Some? && '.' in filePart.value && Uploads.Extension(filePart.value) in {"glb", "gltf"} ==>
      UploadModel(folderFound, filePart, sanitize, uuid) == Uploads.UploadRejected(400, "File type not allowed")
  {
    if filePart.Some? {
      Uploads.LegacyAcceptsLess(filePart.value);
    }
  }
}
