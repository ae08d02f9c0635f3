/**
 * The folder management page (`app/folders/page.tsx`): a list of folders held in
 * page state, with dialogs to create, rename and delete a folder. The list starts
 * from three sample folders; the handlers compute the new list and replace the old one.
 */
module FoldersPage {
  import opened Wrappers
  import Text
  import Seqs

  datatype Folder = Folder(id: int, name: string, fileCount: nat, createdAt: string)

  const INITIAL_FOLDERS: seq<Folder> := [
    Folder(1, "Greek Artifacts", 5, "2023-05-10"),
    Folder(2, "Roman Sculptures", 3, "2023-06-15"),
    Folder(3, "Egyptian Collection", 7, "2023-07-22")
  ]

  /** No two folders share an id. */
  predicate DistinctIds(fs: seq<Folder>)
  {
    forall i, j :: 0 <= i < |fs| && 0 <= j < |fs| && i != j ==> fs[i].id != fs[j].id
  }

  predicate HasId(fs: seq<Folder>, id: int)
  {
    exists i :: 0 <= i < |fs| && fs[i].id == id
  }

  /** `Math.max(0, ...folders.map((f) => f.id))` */
  function MaxId(fs: seq<Folder>): (m: int)
    ensures m >= 0
    ensures forall i :: 0 <= i < |fs| ==> fs[i].id <= m
    ensures m == 0 || HasId(fs, m)
  {
    if |fs| == 0 then 0
    else
      var rest := MaxId(fs[..|fs| - 1]);
      assert forall i :: 0 <= i < |fs| - 1 ==> fs[..|fs| - 1][i] == fs[i];
      if fs[|fs| - 1].id > rest then fs[|fs| - 1].id else rest
  }

  /** The id a new folder gets: one more than the largest, 1 for an empty list. */
  function NextId(fs: seq<Folder>): (id: int)
    ensures id >= 1 && !HasId(fs, id)
    ensures forall i :: 0 <= i < |fs| ==> fs[i].id < id
    ensures fs == [] ==> id == 1
  {
    MaxId(fs) + 1
  }

  /** `folders.map((folder) => folder.id === id ? { ...folder, name } : folder)` */
  function Renamed(fs: seq<Folder>, id: int, name: string): (r: seq<Folder>)
    ensures |r| == |fs|
    ensures forall i :: 0 <= i < |fs| ==> r[i] == (if fs[i].id == id then fs[i].(name := name) else fs[i])
  {
    seq(|fs|, i requires 0 <= i < |fs| => if fs[i].id == id then fs[i].(name := name) else fs[i])
  }

  /** `folders.filter((folder) => folder.id !== id)` */
  function Without(fs: seq<Folder>, id: int): (r: seq<Folder>)
    ensures Seqs.IsSubsequence(r, fs)
    ensures forall f :: f in r <==> f in fs && f.id != id
  {
    if |fs| == 0 then []
    else
      var rest := Without(fs[1..], id);
      assert fs == [fs[0]] + fs[1..];
      if fs[0].id == id then
        Seqs.SubsequencePrepend(fs[0], rest, fs[1..]);
        rest
      else
        Seqs.SubsequenceKeep(fs[0], rest, fs[1..]);
        [fs[0]] + rest
  }

  /** The delete is exactly `Array.filter`: each folder without the id is kept as often as
      it occurs, and each folder with it is dropped. */
  lemma {:induction false} WithoutMultiset(fs: seq<Folder>, id: int)
    ensures forall f :: multiset(Without(fs, id))[f] == if f.id != id then multiset(fs)[f] else 0
  {
    if |fs| > 0 {
      WithoutMultiset(fs[1..], id);
      assert fs == [fs[0]] + fs[1..];
    }
  }

  /** Renaming keeps every id, so distinct ids stay distinct. */
  lemma RenamedKeepsIds(fs: seq<Folder>, id: int, name: string)
    ensures forall i :: 0 <= i < |fs| ==> Renamed(fs, id, name)[i].id == fs[i].id
    ensures DistinctIds(fs) ==> DistinctIds(Renamed(fs, id, name))
  {
  }

  /** A folder that was not the target comes through a delete untouched, and only the
      target's id disappears: with distinct ids, exactly one folder goes when the id is
      present and none when it is not. */
  lemma {:induction false} WithoutCount(fs: seq<Folder>, id: int)
    requires DistinctIds(fs)
    ensures DistinctIds(Without(fs, id))
    ensures |Without(fs, id)| == if HasId(fs, id) then |fs| - 1 else |fs|
  {
    if |fs| > 0 {
      var tail := fs[1..];
      DistinctTail(fs);
      WithoutCount(tail, id);
      HasIdCons(fs, id);
      if fs[0].id != id {
        HasIdSubsequence(Without(tail, id), tail, fs[0].id);
        DistinctCons(fs[0], Without(tail, id));
      }
    }
  }

  lemma DistinctTail(fs: seq<Folder>)
    requires DistinctIds(fs) && |fs| > 0
    ensures DistinctIds(fs[1..]) && !HasId(fs[1..], fs[0].id)
  {
    var tail := fs[1..];
    forall i, j | 0 <= i < |tail| && 0 <= j < |tail| && i != j ensures tail[i].id != tail[j].id {
      assert tail[i] == fs[i + 1] && tail[j] == fs[j + 1];
    }
    forall k | 0 <= k < |tail| ensures tail[k].id != fs[0].id {
      assert tail[k] == fs[k + 1];
    }
  }

  lemma DistinctCons(x: Folder, r: seq<Folder>)
    requires DistinctIds(r) && !HasId(r, x.id)
    ensures DistinctIds([x] + r)
  {
    var xr := [x] + r;
    forall i, j | 0 <= i < |xr| && 0 <= j < |xr| && i != j ensures xr[i].id != xr[j].id {
      if i > 0 && j > 0 {
        assert xr[i] == r[i - 1] && xr[j] == r[j - 1];
      } else if i > 0 {
        assert xr[i] == r[i - 1];
      } else {
        assert xr[j] == r[j - 1];
      }
    }
  }

  lemma HasIdCons(fs: seq<Folder>, id: int)
    requires |fs| > 0
    ensures HasId(fs, id) <==> fs[0].id == id || HasId(fs[1..], id)
  {
    if HasId(fs, id) && fs[0].id != id {
      var k :| 0 <= k < |fs| && fs[k].id == id;
      assert fs[1..][k - 1].id == id;
    }
    if HasId(fs[1..], id) {
      var k :| 0 <= k < |fs[1..]| && fs[1..][k].id == id;
      assert fs[k + 1].id == id;
    }
  }

  lemma HasIdSubsequence(a: seq<Folder>, b: seq<Folder>, id: int)
    requires Seqs.IsSubsequence(a, b) && !HasId(b, id)
    ensures !HasId(a, id)
  {
    Seqs.SubsequenceBounds(a, b);
    forall k | 0 <= k < |a| ensures a[k].id != id {
      assert a[k] in b;
    }
  }

  /** A delete keeps ids distinct and positive, and removes one folder when the id exists. */
  lemma DeleteKeepsValid(fs: seq<Folder>, id: int)
    requires DistinctIds(fs) && forall i :: 0 <= i < |fs| ==> fs[i].id >= 1
    ensures DistinctIds(Without(fs, id))
    ensures forall i :: 0 <= i < |Without(fs, id)| ==> Without(fs, id)[i].id >= 1
    ensures |Without(fs, id)| == if HasId(fs, id) then |fs| - 1 else |fs|
  {
    WithoutCount(fs, id);
    var kept := Without(fs, id);
    forall i | 0 <= i < |kept| ensures kept[i].id >= 1 {
      assert kept[i] in fs;
      var j :| 0 <= j < |fs| && fs[j] == kept[i];
    }
  }

  /** `FoldersPage`'s state. The edit dialog holds a copy `{ id, name }` of the folder
      being renamed, which the text field edits; the delete dialog holds the target id. */
  class Page {
    var folders: seq<Folder>
    var newFolderName: string
    var editingFolder: Option<(int, string)>
    var isCreateDialogOpen: bool
    var isEditDialogOpen: bool
    var isDeleteDialogOpen: bool
    var folderToDelete: Option<int>

    /** The card of folder `id` shows its edit dialog:
        `isEditDialogOpen && editingFolder?.id === folder.id`. */
    predicate EditDialogShownFor(id: int)
      reads this
    {
      isEditDialogOpen && editingFolder.Some? && editingFolder.value.0 == id
    }

    /** The card of folder `id` shows its delete dialog:
        `isDeleteDialogOpen && folderToDelete === folder.id`. */
    predicate DeleteDialogShownFor(id: int)
      reads this
    {
      isDeleteDialogOpen && folderToDelete == Some(id)
    }

    /** Folder ids stay distinct and positive. */
    ghost predicate Valid()
      reads this
    {
      DistinctIds(folders) && forall i :: 0 <= i < |folders| ==> folders[i].id >= 1
    }

    constructor ()
      ensures Valid()
      ensures folders == INITIAL_FOLDERS && newFolderName == "" && editingFolder.None?
      ensures !isCreateDialogOpen && !isEditDialogOpen && !isDeleteDialogOpen && folderToDelete.None?
    {
      folders := INITIAL_FOLDERS;
      newFolderName := "";
      editingFolder := None;
      isCreateDialogOpen := false;
      isEditDialogOpen := false;
      isDeleteDialogOpen := false;
      folderToDelete := None;
    }

    /** The create dialog's `onOpenChange`, `setIsCreateDialogOpen`: the "Create Folder"
        trigger opens it, its Cancel button and a dismissal close it. */
    method SetCreateDialogOpen(open: bool)
      modifies this
      ensures isCreateDialogOpen == open
      ensures folders == old(folders) && newFolderName == old(newFolderName) && editingFolder == old(editingFolder)
      ensures isEditDialogOpen == old(isEditDialogOpen)
      ensures isDeleteDialogOpen == old(isDeleteDialogOpen) && folderToDelete == old(folderToDelete)
    {
      isCreateDialogOpen := open;
    }

    /** The create dialog's text field: only the typed name changes. */
    method SetNewFolderName(name: string)
      modifies this
      ensures newFolderName == name
      ensures folders == old(folders) && editingFolder == old(editingFolder)
      ensures isCreateDialogOpen == old(isCreateDialogOpen) && isEditDialogOpen == old(isEditDialogOpen)
      ensures isDeleteDialogOpen == old(isDeleteDialogOpen) && folderToDelete == old(folderToDelete)
    {
      newFolderName := name;
    }

    /** `handleCreateFolder`, with `today` the date part of `new Date().toISOString()`.
        A blank name changes nothing; otherwise the folder (with the name as typed, not
        trimmed) is appended with a fresh id, the field is cleared and the dialog closes. */
    method HandleCreateFolder(today: string)
      requires Valid()
      modifies this
      ensures Valid()
      ensures Text.IsBlank(old(newFolderName)) ==>
        folders == old(folders) && newFolderName == old(newFolderName)
        && isCreateDialogOpen == old(isCreateDialogOpen)
      ensures !Text.IsBlank(old(newFolderName)) ==>
        folders == old(folders) + [Folder(NextId(old(folders)), old(newFolderName), 0, today)]
        && newFolderName == "" && !isCreateDialogOpen
      ensures editingFolder == old(editingFolder) && isEditDialogOpen == old(isEditDialogOpen)
      ensures isDeleteDialogOpen == old(isDeleteDialogOpen) && folderToDelete == old(folderToDelete)
    {
      Text.TrimEmptyIffBlank(newFolderName);
      if Text.Trim(newFolderName) == "" {
        return;
      }
      var newFolder := Folder(NextId(folders), newFolderName, 0, today);
      folders := folders + [newFolder];
      newFolderName := "";
      isCreateDialogOpen := false;
    }

    /** The pencil button inside its `DialogTrigger`: the button's click stores a copy of
        the folder's id and name, then the trigger opens the dialog, so that folder's card
        shows it. */
    method StartEdit(f: Folder)
      modifies this
      ensures editingFolder == Some((f.id, f.name)) && isEditDialogOpen
      ensures EditDialogShownFor(f.id)
      ensures folders == old(folders) && newFolderName == old(newFolderName)
      ensures isCreateDialogOpen == old(isCreateDialogOpen)
      ensures isDeleteDialogOpen == old(isDeleteDialogOpen) && folderToDelete == old(folderToDelete)
    {
      editingFolder := Some((f.id, f.name));
      isEditDialogOpen := true;
    }

    /** The edit dialog's `onOpenChange`: it sets the open flag, and a dismissal (closing)
        also drops the copy. */
    method EditDialogOpenChange(open: bool)
      modifies this
      ensures isEditDialogOpen == open
      ensures editingFolder == (if open then old(editingFolder) else None)
      ensures folders == old(folders) && newFolderName == old(newFolderName)
      ensures isCreateDialogOpen == old(isCreateDialogOpen)
      ensures isDeleteDialogOpen == old(isDeleteDialogOpen) && folderToDelete == old(folderToDelete)
    {
      isEditDialogOpen := open;
      if !open {
        editingFolder := None;
      }
    }

    /** The edit dialog's Cancel button: it closes the dialog and keeps the copy. */
    method CancelEdit()
      modifies this
      ensures !isEditDialogOpen && editingFolder == old(editingFolder)
      ensures forall id :: !EditDialogShownFor(id)
      ensures folders == old(folders) && newFolderName == old(newFolderName)
      ensures isCreateDialogOpen == old(isCreateDialogOpen)
      ensures isDeleteDialogOpen == old(isDeleteDialogOpen) && folderToDelete == old(folderToDelete)
    {
      isEditDialogOpen := false;
    }

    /** The edit dialog's text field: it changes the copy's name only, and only while a copy exists. */
    method EditName(name: string)
      modifies this
      ensures editingFolder == (if old(editingFolder).Some? then Some((old(editingFolder).value.0, name)) else None)
      ensures folders == old(folders) && newFolderName == old(newFolderName)
      ensures isCreateDialogOpen == old(isCreateDialogOpen) && isEditDialogOpen == old(isEditDialogOpen)
      ensures isDeleteDialogOpen == old(isDeleteDialogOpen) && folderToDelete == old(folderToDelete)
    {
      if editingFolder.Some? {
        editingFolder := Some((editingFolder.value.0, name));
      }
    }

    /** `handleEditFolder`: without a copy or with a blank name nothing happens; otherwise
        every folder with the copy's id is renamed and the dialog closes. */
    method HandleEditFolder()
      requires Valid()
      modifies this
      ensures Valid()
      ensures old(editingFolder).None? || Text.IsBlank(old(editingFolder).value.1) ==>
        folders == old(folders) && isEditDialogOpen == old(isEditDialogOpen)
      ensures old(editingFolder).Some? && !Text.IsBlank(old(editingFolder).value.1) ==>
        folders == Renamed(old(folders), old(editingFolder).value.0, old(editingFolder).value.1)
        && !isEditDialogOpen
      ensures editingFolder == old(editingFolder) && newFolderName == old(newFolderName)
      ensures isCreateDialogOpen == old(isCreateDialogOpen)
      ensures isDeleteDialogOpen == old(isDeleteDialogOpen) && folderToDelete == old(folderToDelete)
    {
      if editingFolder.None? {
        return;
      }
      Text.TrimEmptyIffBlank(editingFolder.value.1);
      if Text.Trim(editingFolder.value.1) == "" {
        return;
      }
      RenamedKeepsIds(folders, editingFolder.value.0, editingFolder.value.1);
      folders := Renamed(folders, editingFolder.value.0, editingFolder.value.1);
      isEditDialogOpen := false;
    }

    /** The trash button inside its `DialogTrigger`: the click remembers the folder's id,
        then the trigger opens the dialog on that folder's card. */
    method StartDelete(id: int)
      modifies this
      ensures folderToDelete == Some(id) && isDeleteDialogOpen
      ensures DeleteDialogShownFor(id)
      ensures folders == old(folders) && newFolderName == old(newFolderName) && editingFolder == old(editingFolder)
      ensures isCreateDialogOpen == old(isCreateDialogOpen) && isEditDialogOpen == old(isEditDialogOpen)
    {
      folderToDelete := Some(id);
      isDeleteDialogOpen := true;
    }

    /** The delete dialog's `onOpenChange`: it sets the open flag, and a dismissal also
        forgets the target. */
    method DeleteDialogOpenChange(open: bool)
      modifies this
      ensures isDeleteDialogOpen == open
      ensures folderToDelete == (if open then old(folderToDelete) else None)
      ensures folders == old(folders) && newFolderName == old(newFolderName) && editingFolder == old(editingFolder)
      ensures isCreateDialogOpen == old(isCreateDialogOpen) && isEditDialogOpen == old(isEditDialogOpen)
    {
      isDeleteDialogOpen := open;
      if !open {
        folderToDelete := None;
      }
    }

    /** The delete dialog's Cancel button: it closes the dialog and keeps the target. */
    method CancelDelete()
      modifies this
      ensures !isDeleteDialogOpen && folderToDelete == old(folderToDelete)
      ensures forall id :: !DeleteDialogShownFor(id)
      ensures folders == old(folders) && newFolderName == old(newFolderName) && editingFolder == old(editingFolder)
      ensures isCreateDialogOpen == old(isCreateDialogOpen) && isEditDialogOpen == old(isEditDialogOpen)
    {
      isDeleteDialogOpen := false;
    }

    /** `handleDeleteFolder`: without a target nothing happens; otherwise the folders
        with that id are filtered out (in order) and the dialog closes. */
    method HandleDeleteFolder()
      requires Valid()
      modifies this
      ensures Valid()
      ensures old(folderToDelete).None? ==> folders == old(folders) && isDeleteDialogOpen == old(isDeleteDialogOpen)
      ensures old(folderToDelete).Some? ==>
        folders == Without(old(folders), old(folderToDelete).value) && !isDeleteDialogOpen
        && |folders| == (if HasId(old(folders), old(folderToDelete).value) then |old(folders)| - 1 else |old(folders)|)
      ensures folderToDelete == old(folderToDelete) && newFolderName == old(newFolderName)
      ensures editingFolder == old(editingFolder) && isCreateDialogOpen == old(isCreateDialogOpen)
      ensures isEditDialogOpen == old(isEditDialogOpen)
    {
      if folderToDelete.None? {
        return;
      }
      DeleteKeepsValid(folders, folderToDelete.value);
      folders := Without(folders, folderToDelete.value);
      isDeleteDialogOpen := false;
    }
  }
}
