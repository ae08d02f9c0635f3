/**
 * The upload rules the two Flask applications share (`backend/app_with_auth.py` and
 * `backend/app.py`): the extension test, the order in which an upload request is
 * rejected, and the name the stored file gets. The applications differ only in the
 * set of extensions they accept and in the wording of one error.
 */
module Uploads {
  import opened Wrappers
  import Text

  /** `ALLOWED_EXTENSIONS` of the authenticated application. */
  const AUTH_EXTENSIONS: set<string> := {"obj", "ply", "stl", "glb", "gltf"}

  /** `ALLOWED_EXTENSIONS` of the older application without accounts. */
  const LEGACY_EXTENSIONS: set<string> := {"obj", "ply", "stl"}

  /** The extension Python's `filename.rsplit('.', 1)[1].lower()` yields. */
  function Extension(filename: string): string
  {
    Text.ToLower(Text.AfterLast(filename, '.'))
  }

  /** `allowed_file`: the name holds a dot and the lower-cased text after the last dot is
      an allowed extension. */
  predicate AllowedFile(filename: string, allowed: set<string>)
  {
    '.' in filename && Extension(filename) in allowed
  }

  /** An independent statement of the rule: a name is allowed exactly when it has a dot at
      some position `i`, no dot after it, and the lower-cased rest `filename[i+1..]` is an
      allowed extension. */
  lemma AllowedFileIff(filename: string, allowed: set<string>)
    ensures AllowedFile(filename, allowed) <==>
      exists i :: 0 <= i < |filename| && LastDotAt(filename, i) && Text.ToLower(filename[i + 1..]) in allowed
  {
    if '.' in filename {
      var i := LastDotOf(filename);
      if AllowedFile(filename, allowed) {
        assert 0 <= i < |filename| && LastDotAt(filename, i) && Text.ToLower(filename[i + 1..]) in allowed;
      }
      forall j | 0 <= j < |filename| && LastDotAt(filename, j) && Text.ToLower(filename[j + 1..]) in allowed
        ensures AllowedFile(filename, allowed)
      {
        LastDotUnique(filename, i, j);
      }
    } else {
      forall i | 0 <= i < |filename| ensures !LastDotAt(filename, i) {
        assert filename[i] in filename;
      }
    }
  }

  /** The dot at position `i` is the last one. */
  predicate LastDotAt(filename: string, i: int)
    requires 0 <= i < |filename|
  {
    filename[i] == '.' && '.' !in filename[i + 1..]
  }

  /** Where the last dot is, and that `AfterLast` is what follows it. */
  lemma LastDotOf(filename: string) returns (i: int)
    requires '.' in filename
    ensures 0 <= i < |filename| && LastDotAt(filename, i)
    ensures Text.AfterLast(filename, '.') == filename[i + 1..]
  {
    Text.AfterLastIsSuffix(filename, '.');
    var e := Text.AfterLast(filename, '.');
    i := |filename| - |e| - 1;
    assert filename[i + 1..] == e;
  }

  lemma LastDotUnique(filename: string, i: int, j: int)
    requires 0 <= i < |filename| && LastDotAt(filename, i)
    requires 0 <= j < |filename| && LastDotAt(filename, j)
    ensures i == j
  {
    assert forall k :: i < k < |filename| ==> filename[k] == filename[i + 1..][k - i - 1];
    assert forall k :: j < k < |filename| ==> filename[k] == filename[j + 1..][k - j - 1];
  }

  /** Every name the older application accepts, the authenticated one accepts too; a
      `.glb` or `.gltf` scan only the authenticated one does. */
  lemma LegacyAcceptsLess(filename: string)
    ensures AllowedFile(filename, LEGACY_EXTENSIONS) ==> AllowedFile(filename, AUTH_EXTENSIONS)
    ensures '.' in filename && Extension(filename) in {"glb", "gltf"} ==>
      AllowedFile(filename, AUTH_EXTENSIONS) && !AllowedFile(filename, LEGACY_EXTENSIONS)
  {
  }

  /** The extension of `p + "." + e`, for `e` free of dots, is `e` in lower case. */
  lemma ExtensionAfterDot(p: string, e: string)
    requires '.' !in e
    ensures '.' in p + ['.'] + e
    ensures Extension(p + ['.'] + e) == Text.ToLower(e)
  {
    Text.AfterLastAppend(p, '.', e);
    assert (p + ['.'] + e)[|p|] == '.';
  }

  /** The test ignores letter case: `statue.OBJ` is a model. */
  lemma UpperCaseAllowed()
    ensures AllowedFile("statue.OBJ", AUTH_EXTENSIONS)
  {
    ExtensionAfterDot("statue", "OBJ");
    assert "statue.OBJ" == "statue" + ['.'] + "OBJ";
    assert Text.ToLower("OBJ") == "obj";
  }

  /** Only the last dot counts: whatever precedes it (`scan.obj`, say), a `.zip` name is an
      archive, not a model. */
  lemma LastDotCounts(p: string)
    ensures !AllowedFile(p + ".zip", AUTH_EXTENSIONS)
  {
    ExtensionAfterDot(p, "zip");
    assert p + ".zip" == p + ['.'] + "zip";
    assert Text.ToLower("zip") == "zip";
  }

  /** How an upload request ends before anything is saved. */
  datatype UploadCheck = Rejected(status: int, error: string) | Accepted(filename: string)

  /** The checks of `upload_model`, in their order: the folder (owned by the user, in the
      authenticated application), then the `file` part (`filePart` is its filename when
      the request has one), then an empty filename, then the extension. */
  function CheckUpload(folderFound: bool, filePart: Option<string>, allowed: set<string>,
                       notAllowed: string): (d: UploadCheck)
    ensures d.Accepted? <==> folderFound && filePart.Some? && filePart.value != "" && AllowedFile(filePart.value, allowed)
    ensures d.Accepted? ==> d.filename == filePart.value
    ensures d.Rejected? ==> d.status == 404 || d.status == 400
    ensures d.Rejected? && d.status == 404 <==> !folderFound
  {
    if !folderFound then Rejected(404, "Folder not found")
    else if filePart.None? then Rejected(400, "No file part")
    else if filePart.value == "" then Rejected(400, "No selected file")
    else if !AllowedFile(filePart.value, allowed) then Rejected(400, notAllowed)
    else Accepted(filePart.value)
  }

  /** Each rejection names the first check that failed: a missing folder wins over a
      missing file, which wins over an empty name, which wins over a bad extension. */
  lemma CheckOrder(folderFound: bool, filePart: Option<string>, allowed: set<string>, notAllowed: string)
    ensures var d := CheckUpload(folderFound, filePart, allowed, notAllowed);
      && (!folderFound ==> d == Rejected(404, "Folder not found"))
      && (folderFound && filePart.None? ==> d == Rejected(400, "No file part"))
      && (folderFound && filePart == Some("") ==> d == Rejected(400, "No selected file"))
      && (folderFound && filePart.Some? && filePart.value != "" && !AllowedFile(filePart.value, allowed) ==>
            d == Rejected(400, notAllowed))
  {
  }

  /** The stored name `f"{uuid}.{ext}"`, where `ext` is the lower-cased text after the last
      dot of the sanitised name; a sanitised name without a dot makes the indexing raise,
      which is `None` here. */
  function StoredName(uuid: string, sanitized: string): (name: Option<string>)
    ensures name.Some? <==> '.' in sanitized
  {
    if '.' in sanitized then Some(uuid + "." + Extension(sanitized)) else None
  }

  /** The stored name is the identifier, a dot, and the lower-cased extension: it has the
      same extension as the sanitised name written in lower case, so it passes the same
      extension test. */
  lemma StoredNameKeepsExtension(uuid: string, sanitized: string, allowed: set<string>)
    requires '.' in sanitized
    ensures var name := StoredName(uuid, sanitized).value;
      && name[..|uuid|] == uuid
      && Text.AfterLast(name, '.') == Extension(sanitized)
      && Extension(name) == Extension(sanitized)
      && (AllowedFile(name, allowed) <==> Extension(sanitized) in allowed)
  {
    var e := Extension(sanitized);
    var raw := Text.AfterLast(sanitized, '.');
    Text.AfterLastIsSuffix(sanitized, '.');
    LowerKeepsDots(raw);
    Text.AfterLastAppend(uuid, '.', e);
    assert uuid + "." + e == uuid + ['.'] + e;
    LowerIdempotent(e, raw);
  }

  lemma LowerKeepsDots(s: string)
    ensures '.' in s <==> '.' in Text.ToLower(s)
  {
    if '.' in s {
      var i :| 0 <= i < |s| && s[i] == '.';
      assert Text.ToLower(s)[i] == '.';
    }
    if '.' in Text.ToLower(s) {
      var i :| 0 <= i < |s| && Text.ToLower(s)[i] == '.';
      assert s[i] == '.';
    }
  }

  lemma LowerIdempotent(e: string, raw: string)
    requires e == Text.ToLower(raw)
    ensures Text.ToLower(e) == e
  {
  }

  /** How `upload_model` ends: refused by a check, failed because the sanitised name lost
      its dot (the `rsplit` indexing raises and the answer is a 500), or saved under the
      stored name with the file type recorded in the `models` row. */
  datatype UploadOutcome =
    | UploadRejected(status: int, error: string)
    | ServerError
    | Saved(name: string, storedName: string, fileType: string)

  /** `upload_model` after the checks: the file is saved under a fresh identifier `uuid`
      and `secure_filename` (the parameter `sanitize`) gives the name recorded for it. */
  function Upload(folderFound: bool, filePart: Option<string>, allowed: set<string>, notAllowed: string,
                  sanitize: string -> string, uuid: string): (o: UploadOutcome)
    ensures o.UploadRejected? <==> CheckUpload(folderFound, filePart, allowed, notAllowed).Rejected?
    ensures o.Saved? ==> filePart.Some? && AllowedFile(filePart.value, allowed) && o.name == sanitize(filePart.value)
    ensures o.Saved? ==> o.fileType == Extension(o.name) && Text.AfterLast(o.storedName, '.') == o.fileType
    ensures o.ServerError? ==> filePart.Some? && '.' !in sanitize(filePart.value)
  {
    match CheckUpload(folderFound, filePart, allowed, notAllowed)
    case Rejected(status, error) => UploadRejected(status, error)
    case Accepted(filename) =>
      var name := sanitize(filename);
      match StoredName(uuid, name)
      case None => ServerError
      case Some(stored) =>
        StoredNameKeepsExtension(uuid, name, allowed);
        Saved(name, stored, Extension(name))
  }

  /** When sanitising keeps the extension, the recorded file type is one of the allowed
      extensions, so the stored file passes the same test as the upload did. */
  lemma SavedTypeAllowed(folderFound: bool, filePart: Option<string>, allowed: set<string>, notAllowed: string,
                         sanitize: string -> string, uuid: string)
    requires filePart.Some? && '.' in sanitize(filePart.value)
    requires Extension(sanitize(filePart.value)) == Extension(filePart.value)
    ensures var o := Upload(folderFound, filePart, allowed, notAllowed, sanitize, uuid);
      o.Saved? ==> o.fileType in allowed && AllowedFile(o.storedName, allowed)
  {
    var o := Upload(folderFound, filePart, allowed, notAllowed, sanitize, uuid);
    if o.Saved? {
      StoredNameKeepsExtension(uuid, o.name, allowed);
    }
  }

  /** `mime_types.get(file_type, 'application/octet-stream')` in `download_model`. */
  function MimeType(fileType: string): (m: string)
    ensures m == "text/plain" <==> fileType == "obj"
    ensures m == "model/gltf-binary" <==> fileType == "glb"
    ensures m == "model/gltf+json" <==> fileType == "gltf"
    ensures fileType !in {"obj", "glb", "gltf"} ==> m == "application/octet-stream"
  {
    if fileType == "obj" then "text/plain"
    else if fileType == "ply" || fileType == "stl" then "application/octet-stream"
    else if fileType == "glb" then "model/gltf-binary"
    else if fileType == "gltf" then "model/gltf+json"
    else "application/octet-stream"
  }
}
