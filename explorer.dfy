/** The explorer component's session state and its event handlers. Each awaited
    request is an input `Reply` that decides which state update runs. */
module FileExplorer {
  import opened Common
  import opened NodeIds
  import opened TreeStore
  import opened OpenDispatch

  /** The subfolder listing `{folders, files}`; either array may be missing. */
  datatype Listing = Listing(folders: Option<seq<Entry>>, files: Option<seq<Entry>>)

  /** The body of the create-folder POST: `{name, parentId}`. */
  datatype CreateRequest = CreateRequest(name: string, parentId: Option<string>)

  /** The file DELETE: the name in the path (null when the label lookup failed)
      and the backend file id in the body (undefined when the id has no `-`). */
  datatype FileDeleteRequest = FileDeleteRequest(fileName: Option<string>, fileId: Option<string>)

  /** The file download GET: the name in the path and the mode chosen for it. */
  datatype Download = Download(fileName: string, mode: Mode)

  /** The shape of `addSubItemsToTree(tree, parentItemId, folders, files)`. */
  type Merge = (seq<Node>, string, seq<Entry>, seq<Entry>) -> seq<Node>

  /** The characters `String.prototype.trim` removes: white space and line terminators. */
  predicate IsTrimmed(c: char)
  {
    ('\U{9}' <= c <= '\U{D}') || c == ' ' || c == '\U{A0}' || c == '\U{1680}' ||
    ('\U{2000}' <= c <= '\U{200A}') || c == '\U{2028}' || c == '\U{2029}' ||
    c == '\U{202F}' || c == '\U{205F}' || c == '\U{3000}' || c == '\U{FEFF}'
  }

  /** The text left after dropping leading white space. */
  function TrimStart(s: string): (r: string)
    ensures |r| <= |s| && r == s[|s| - |r|..]
    ensures forall i :: 0 <= i < |s| - |r| ==> IsTrimmed(s[i])
    ensures r == [] || !IsTrimmed(r[0])
  {
    if s != [] && IsTrimmed(s[0]) then TrimStart(s[1..]) else s
  }

  /** The text left after dropping trailing white space. */
  function TrimEnd(s: string): (r: string)
    ensures |r| <= |s| && r == s[..|r|]
    ensures forall i :: |r| <= i < |s| ==> IsTrimmed(s[i])
    ensures r == [] || !IsTrimmed(r[|r| - 1])
  {
    if s != [] && IsTrimmed(s[|s| - 1]) then TrimEnd(s[..|s| - 1]) else s
  }

  /** `r` is the slice of `s` from `a` on, with only white space around it. */
  predicate TrimmedAt(s: string, a: nat, r: string)
  {
    a + |r| <= |s| && r == s[a..a + |r|] &&
    (forall i :: 0 <= i < a ==> IsTrimmed(s[i])) &&
    (forall i :: a + |r| <= i < |s| ==> IsTrimmed(s[i]))
  }

  /** `String.prototype.trim`: the middle of the text, between a white-space
      prefix and a white-space suffix, starting and ending with other characters. */
  function Trim(s: string): (r: string)
    ensures exists a: nat :: TrimmedAt(s, a, r)
    ensures r != [] ==> !IsTrimmed(r[0]) && !IsTrimmed(r[|r| - 1])
  {
    var t := TrimStart(s);
    var r := TrimEnd(t);
    var a := |s| - |t|;
    assert TrimmedAt(s, a, r);
    r
  }

  /** `!name.trim()`: every character of the name is white space. */
  predicate Blank(name: string)
  {
    forall i :: 0 <= i < |name| ==> IsTrimmed(name[i])
  }

  /** A name is blank exactly when trimming it leaves nothing. */
  lemma BlankIsTrimmedEmpty(name: string)
    ensures Blank(name) <==> Trim(name) == []
  {
  }

  /** `selectedItem && selectedItem.startsWith('folder-')`: such an id reads
      as a folder by its first `-` part and has a backend part after it. */
  predicate IsFolderSelection(selection: Option<string>)
    ensures IsFolderSelection(selection) ==>
              selection.Some? && Part(selection.value, 0) == Some(FolderTag) && Part(selection.value, 1).Some?
  {
    if selection.Some? && StartsWith(selection.value, FolderPrefix) then
      FolderPrefixedHasBackendPart(selection.value);
      true
    else false
  }

  /** The parent id sent when creating a folder: the selected folder's backend
      id (`split('-')[1]`), or null when no folder is selected. */
  function ParentOf(selection: Option<string>): (parentId: Option<string>)
    ensures parentId.Some? <==> IsFolderSelection(selection)
  {
    if IsFolderSelection(selection) then
      FolderPrefixedHasBackendPart(selection.value);
      Part(selection.value, 1)
    else None
  }

  /** Selecting `folder-<b>` makes `b` the create parent exactly when `b` has no `-`. */
  lemma ParentOfFolderId(b: string)
    ensures ParentOf(Some(FolderId(b))) == Some(b) <==> Separator !in b
  {
    assert StartsWith(FolderId(b), FolderPrefix) by {
      assert FolderId(b)[..|FolderPrefix|] == FolderPrefix;
    }
    FolderIdRoundTrip(b);
  }

  /** The ids whose subfolders an expand event fetches, in the order of the new
      expanded list: those not expanded before and not loaded yet. */
  function NeedsLoad(newExpanded: seq<string>, previous: seq<string>, loaded: set<string>): (ids: seq<string>)
    ensures |ids| <= |newExpanded|
    ensures forall i :: 0 <= i < |ids| ==> ids[i] in newExpanded && ids[i] !in previous && ids[i] !in loaded
  {
    if newExpanded == [] then []
    else
      var id := newExpanded[|newExpanded| - 1];
      NeedsLoad(newExpanded[..|newExpanded| - 1], previous, loaded) +
      (if id !in previous && id !in loaded then [id] else [])
  }

  /** An expand event fetches an id exactly when it is newly expanded and not
      yet loaded; in particular collapsing, or re-expanding a loaded folder,
      fetches nothing. */
  lemma {:induction false} NeedsLoadExactly(newExpanded: seq<string>, previous: seq<string>, loaded: set<string>, id: string)
    ensures id in NeedsLoad(newExpanded, previous, loaded) <==>
      id in newExpanded && id !in previous && id !in loaded
    decreases |newExpanded|
  {
    if newExpanded != [] {
      var front := newExpanded[..|newExpanded| - 1];
      NeedsLoadExactly(front, previous, loaded, id);
      assert newExpanded == front + [newExpanded[|newExpanded| - 1]];
    }
  }

  /** The fetches an expand event starts follow the order of the new expanded list. */
  lemma {:induction false} NeedsLoadInOrder(newExpanded: seq<string>, previous: seq<string>, loaded: set<string>)
    ensures IsSubseq(NeedsLoad(newExpanded, previous, loaded), newExpanded)
    decreases |newExpanded|
  {
    if newExpanded != [] {
      var n := |newExpanded|;
      var front := newExpanded[..n - 1];
      NeedsLoadInOrder(front, previous, loaded);
      var last := [newExpanded[n - 1]];
      assert newExpanded == front + last;
      var tail := if newExpanded[n - 1] !in previous && newExpanded[n - 1] !in loaded then last else [];
      if tail == [] {
        assert IsSubseq(tail, last);
      } else {
        SubseqReflexive(last);
      }
      SubseqConcat(NeedsLoad(front, previous, loaded), front, tail, last);
    }
  }

  /** A created folder appended as the last root is found under its new id,
      unless that id was already in the tree. */
  lemma AppendedFolderFindable(nodes: seq<Node>, e: Entry)
    ensures (forall m :: m in Flatten(nodes) ==> m.itemId != FolderId(e.id)) ==>
              FindLabel(nodes + [FolderNode(e)], FolderId(e.id)) == Some(e.name)
  {
    if forall m :: m in Flatten(nodes) ==> m.itemId != FolderId(e.id) {
      FindLabelAppendedRoot(nodes, FolderNode(e));
    }
  }

  class Explorer {
    /** The root forest (`treeData`). */
    var treeData: seq<Node>
    /** The expanded item ids, as the tree view reports them (`expandedItems`). */
    var expandedItems: seq<string>
    /** Folder ids whose subfolders have been fetched (`loadedFolders`). */
    var loadedFolders: set<string>
    /** The single selected item id, or null (`selectedItem`). */
    var selectedItem: Option<string>
    /** Folder ids with a subfolder request in flight (`loadingItems`). */
    var loadingItems: set<string>
    /** The text of the new-folder field (`newFolderName`). */
    var newFolderName: string
    /** `addSubItemsToTree`, defined outside this model. */
    const addSubItems: Merge
    /** Whether the parent passed an `onSelectFolder` callback. */
    const notifiesFolder: bool

    constructor (addSubItems: Merge, notifiesFolder: bool)
      ensures treeData == [] && expandedItems == [] && loadedFolders == {}
      ensures selectedItem == None && loadingItems == {} && newFolderName == ""
      ensures this.addSubItems == addSubItems && this.notifiesFolder == notifiesFolder
    {
      treeData := [];
      expandedItems := [];
      loadedFolders := {};
      selectedItem := None;
      loadingItems := {};
      newFolderName := "";
      this.addSubItems := addSubItems;
      this.notifiesFolder := notifiesFolder;
    }

    /** `loadRootFolders`: on success the forest becomes one empty folder per
        backend folder, in order; on failure nothing changes. */
    method LoadRootFolders(reply: Reply<seq<Entry>>)
      modifies this
      ensures reply.Success? ==> treeData == Roots(reply.value)
      ensures reply.Success? ==> forall i :: 0 <= i < |reply.value| ==> treeData[i].isFolder && treeData[i].children == []
      ensures reply.Success? && (forall j, k :: 0 <= j < k < |reply.value| ==> reply.value[j].id != reply.value[k].id) ==>
        forall i :: 0 <= i < |reply.value| ==> FindLabel(treeData, FolderId(reply.value[i].id)) == Some(reply.value[i].name)
      ensures reply.Failure? ==> treeData == old(treeData)
      ensures expandedItems == old(expandedItems) && loadedFolders == old(loadedFolders) && loadingItems == old(loadingItems)
      ensures selectedItem == old(selectedItem) && newFolderName == old(newFolderName)
    {
      if reply.Success? {
        treeData := Roots(reply.value);
        if forall j, k :: 0 <= j < k < |reply.value| ==> reply.value[j].id != reply.value[k].id {
          forall i | 0 <= i < |reply.value|
            ensures FindLabel(treeData, FolderId(reply.value[i].id)) == Some(reply.value[i].name)
          {
            RootsFindable(reply.value, i);
          }
        }
      }
    }

    /** `handleExpandedItemsChange`: the expanded list becomes exactly the new
        one, and a subfolder load is started for each id of it that was not
        expanded before and is not loaded; loaded folders are never dropped. */
    method HandleExpandedItemsChange(newExpanded: seq<string>) returns (started: seq<string>)
      modifies this
      ensures expandedItems == newExpanded
      ensures started == NeedsLoad(newExpanded, old(expandedItems), old(loadedFolders))
      ensures loadingItems == old(loadingItems) + set id | id in started
      ensures treeData == old(treeData) && loadedFolders == old(loadedFolders)
      ensures selectedItem == old(selectedItem) && newFolderName == old(newFolderName)
    {
      var previouslyExpanded := expandedItems;
      expandedItems := newExpanded;
      started := [];
      var i := 0;
      while i < |newExpanded|
        invariant 0 <= i <= |newExpanded|
        invariant started == NeedsLoad(newExpanded[..i], previouslyExpanded, loadedFolders)
        invariant loadingItems == old(loadingItems) + set id | id in started
        invariant expandedItems == newExpanded && treeData == old(treeData) && loadedFolders == old(loadedFolders)
        invariant selectedItem == old(selectedItem) && newFolderName == old(newFolderName)
      {
        var folderId := newExpanded[i];
        assert newExpanded[..i + 1][..i] == newExpanded[..i];
        if folderId !in previouslyExpanded && folderId !in loadedFolders {
          var _ := StartLoadSubfolders(folderId);
          started := started + [folderId];
        }
        i := i + 1;
      }
      assert newExpanded[..i] == newExpanded;
    }

    /** `loadSubfolders` up to its request: the id is marked loading and its
        backend id (`split('-')[1]`) is what gets requested. */
    method StartLoadSubfolders(itemId: string) returns (backendId: Option<string>)
      modifies this
      ensures backendId == Part(itemId, 1)
      ensures loadingItems == old(loadingItems) + {itemId}
      ensures treeData == old(treeData) && expandedItems == old(expandedItems) && loadedFolders == old(loadedFolders)
      ensures selectedItem == old(selectedItem) && newFolderName == old(newFolderName)
    {
      backendId := Part(itemId, 1);
      loadingItems := loadingItems + {itemId};
    }

    /** `loadSubfolders` after its request: on success the listing is merged
        into the tree and the id is marked loaded; either way the id stops
        loading; on failure the tree and the loaded set are unchanged. */
    method FinishLoadSubfolders(itemId: string, reply: Reply<Listing>)
      modifies this
      ensures reply.Success? ==>
        var folders := if reply.value.folders.Some? then reply.value.folders.value else [];
        var files := if reply.value.files.Some? then reply.value.files.value else [];
        treeData == addSubItems(old(treeData), itemId, folders, files) &&
        loadedFolders == old(loadedFolders) + {itemId}
      ensures reply.Failure? ==> treeData == old(treeData) && loadedFolders == old(loadedFolders)
      ensures loadingItems == old(loadingItems) - {itemId}
      ensures expandedItems == old(expandedItems) && selectedItem == old(selectedItem) && newFolderName == old(newFolderName)
    {
      if reply.Success? {
        var data := reply.value;
        var folders := if data.folders.Some? then data.folders.value else [];
        var files := if data.files.Some? then data.files.value else [];
        treeData := addSubItems(treeData, itemId, folders, files);
        loadedFolders := loadedFolders + {itemId};
      }
      loadingItems := loadingItems - {itemId};
    }

    /** `handleSelectedItemChange`: the selection becomes the id; the folder
        callback hears the backend id only for a (truthy) id whose kind reads
        `folder`; selecting a file or nothing notifies no one. */
    method HandleSelectedItemChange(itemId: Option<string>) returns (notified: Option<Option<string>>)
      modifies this
      ensures selectedItem == itemId
      ensures notified.Some? <==> notifiesFolder && itemId.Some? && itemId.value != "" && Part(itemId.value, 0) == Some(FolderTag)
      ensures notified.Some? ==> notified.value == Part(itemId.value, 1)
      ensures forall b :: itemId == Some(FolderId(b)) && Separator !in b && notifiesFolder ==> notified == Some(Some(b))
      ensures treeData == old(treeData) && expandedItems == old(expandedItems) && loadedFolders == old(loadedFolders)
      ensures loadingItems == old(loadingItems) && newFolderName == old(newFolderName)
    {
      selectedItem := itemId;
      notified := None;
      if itemId.Some? && itemId.value != "" {
        var nodeType := Part(itemId.value, 0);
        var originalId := Part(itemId.value, 1);
        if nodeType == Some(FolderTag) && notifiesFolder {
          notified := Some(originalId);
        }
      }
      forall b | itemId == Some(FolderId(b)) && Separator !in b && notifiesFolder
        ensures notified == Some(Some(b))
      {
        FolderIdRoundTrip(b);
      }
    }

    /** `handleTreeClick`: a click outside every tree item clears the selection
        and reports null to the folder callback; a click on an item does nothing here. */
    method HandleTreeClick(onTreeItem: bool) returns (notified: Option<Option<string>>)
      modifies this
      ensures !onTreeItem ==> selectedItem == None
      ensures onTreeItem ==> selectedItem == old(selectedItem)
      ensures notified.Some? <==> !onTreeItem && notifiesFolder
      ensures notified.Some? ==> notified.value == None
      ensures treeData == old(treeData) && expandedItems == old(expandedItems) && loadedFolders == old(loadedFolders)
      ensures loadingItems == old(loadingItems) && newFolderName == old(newFolderName)
    {
      notified := None;
      if !onTreeItem {
        selectedItem := None;
        if notifiesFolder {
          notified := Some(None);
        }
      }
    }

    /** The new-folder text field's change handler. */
    method SetNewFolderName(name: string)
      modifies this
      ensures newFolderName == name
      ensures treeData == old(treeData) && expandedItems == old(expandedItems) && loadedFolders == old(loadedFolders)
      ensures loadingItems == old(loadingItems) && selectedItem == old(selectedItem)
    {
      newFolderName := name;
    }

    /** `handleCreateFolder`: a blank name is refused before any request; else
        the folder is requested under the selected folder (or at the root), and
        on success it is merged under a truthy parent id or appended as the
        last root, and the name field is cleared. */
    method HandleCreateFolder(reply: Reply<Entry>) returns (request: Option<CreateRequest>)
      modifies this
      ensures Blank(old(newFolderName)) ==> request == None && treeData == old(treeData) && newFolderName == old(newFolderName)
      ensures !Blank(old(newFolderName)) ==> request == Some(CreateRequest(old(newFolderName), ParentOf(old(selectedItem))))
      ensures request.Some? && reply.Success? ==> newFolderName == ""
      ensures request.Some? && reply.Success? && request.value.parentId.Some? && request.value.parentId.value != "" ==>
        treeData == addSubItems(old(treeData), old(selectedItem).value, [reply.value], [])
      ensures request.Some? && reply.Success? && (request.value.parentId.None? || request.value.parentId.value == "") ==>
        treeData == old(treeData) + [FolderNode(reply.value)]
      ensures (request.Some? && reply.Success? && !IsFolderSelection(old(selectedItem)) &&
               forall m :: m in Flatten(old(treeData)) ==> m.itemId != FolderId(reply.value.id)) ==>
        FindLabel(treeData, FolderId(reply.value.id)) == Some(reply.value.name)
      ensures request.Some? && reply.Failure? ==> treeData == old(treeData) && newFolderName == old(newFolderName)
      ensures expandedItems == old(expandedItems) && loadedFolders == old(loadedFolders)
      ensures loadingItems == old(loadingItems) && selectedItem == old(selectedItem)
    {
      if Blank(newFolderName) {
        request := None;
        return;
      }
      var parentId := ParentOf(selectedItem);
      request := Some(CreateRequest(newFolderName, parentId));
      if reply.Success? {
        var newFolder := reply.value;
        var newFolderItem := FolderNode(newFolder);
        if parentId.Some? && parentId.value != "" {
          treeData := addSubItems(treeData, selectedItem.value, [newFolder], []);
        } else {
          AppendedFolderFindable(treeData, newFolder);
          treeData := treeData + [newFolderItem];
        }
        newFolderName := "";
      }
    }

    /** `handleDeleteSelectedFolder`: refused unless a `folder-` item is
        selected; on success that subtree leaves the tree and the selection is
        cleared; on failure nothing changes. */
    method HandleDeleteSelectedFolder(reply: Reply<()>) returns (request: Option<Option<string>>)
      modifies this
      ensures request.Some? <==> IsFolderSelection(old(selectedItem))
      ensures request.Some? ==> request.value == Part(old(selectedItem).value, 1) && request.value.Some?
      ensures request.Some? && reply.Success? ==>
        treeData == Remove(old(treeData), old(selectedItem).value) && selectedItem == None &&
        (forall m :: m in Flatten(treeData) ==> m.itemId != old(selectedItem).value)
      ensures request.None? || reply.Failure? ==> treeData == old(treeData) && selectedItem == old(selectedItem)
      ensures expandedItems == old(expandedItems) && loadedFolders == old(loadedFolders)
      ensures loadingItems == old(loadingItems) && newFolderName == old(newFolderName)
    {
      if !IsFolderSelection(selectedItem) {
        request := None;
        return;
      }
      var folderId := Part(selectedItem.value, 1);
      FolderPrefixedHasBackendPart(selectedItem.value);
      request := Some(folderId);
      if reply.Success? {
        treeData := Remove(treeData, selectedItem.value);
        selectedItem := None;
      }
    }

    /** `handleFileDelete`: the DELETE names the file by its label and carries
        its backend id; on success the node leaves the tree, at any depth. The
        selection is left as it is. */
    method HandleFileDelete(itemId: string, reply: Reply<()>) returns (request: FileDeleteRequest)
      modifies this
      ensures request == FileDeleteRequest(FindLabel(old(treeData), itemId), Part(itemId, 1))
      ensures reply.Success? ==> treeData == Remove(old(treeData), itemId)
      ensures reply.Success? ==>
        FindLabel(treeData, itemId) == None && forall m :: m in Flatten(treeData) ==> m.itemId != itemId
      ensures reply.Failure? ==> treeData == old(treeData)
      ensures expandedItems == old(expandedItems) && loadedFolders == old(loadedFolders) && loadingItems == old(loadingItems)
      ensures selectedItem == old(selectedItem) && newFolderName == old(newFolderName)
    {
      var fileId := Part(itemId, 1);
      var fileName := FindLabel(treeData, itemId);
      request := FileDeleteRequest(fileName, fileId);
      if reply.Success? {
        FindLabelAfterRemove(treeData, itemId);
        treeData := Remove(treeData, itemId);
      }
    }

    /** `handleFileOpen`: no request when the label lookup yields null (the
        failure is caught); otherwise the file is downloaded by its label in
        the mode its extension selects, and the viewer is called when the
        download succeeds. Nothing in the state changes. */
    method HandleFileOpen(itemId: string, reply: Reply<()>) returns (request: Option<Download>, shown: bool)
      ensures request.None? <==> FindLabel(treeData, itemId).None?
      ensures request.Some? ==> request.value.fileName == FindLabel(treeData, itemId).value
      ensures request.Some? ==> request.value.mode == ModeOf(request.value.fileName)
      ensures shown <==> request.Some? && reply.Success?
    {
      var fileName := FindLabel(treeData, itemId);
      if fileName.None? {
        request, shown := None, false;
        return;
      }
      request := Some(Download(fileName.value, ModeOf(fileName.value)));
      shown := reply.Success?;
    }
  }

  /** A session: load one root, expand it, collapse it and expand it again
      before the first response arrives. The expand handler has no loading
      check, so a second fetch starts, and the first response already clears
      the loading mark while the second is still in flight. */
  method RefetchWhileLoading(merge: Merge)
  {
    var e := new Explorer(merge, true);
    assert FolderId("1") == "folder-1";
    e.LoadRootFolders(Success([Entry("1", "Docs")]));
    assert e.treeData == [Node("folder-1", "Docs", true, [])];
    var first := e.HandleExpandedItemsChange(["folder-1"]);
    assert first == ["folder-1"];
    var none := e.HandleExpandedItemsChange([]);
    assert none == [];
    var second := e.HandleExpandedItemsChange(["folder-1"]);
    assert "folder-1" in e.loadingItems && second == ["folder-1"];
    e.FinishLoadSubfolders("folder-1", Success(Listing(Some([Entry("2", "Sub")]), Some([Entry("9", "a.txt")]))));
    assert "folder-1" !in e.loadingItems && "folder-1" in e.loadedFolders;
    var third := e.HandleExpandedItemsChange([]);
    var fourth := e.HandleExpandedItemsChange(["folder-1"]);
    assert fourth == [];
  }

  /** A session: with folder `folder-<b>` selected, a new folder is requested
      with parent id `b` and merged under the selection, not added as a root. */
  method CreateUnderSelectedFolder(merge: Merge, b: string, name: string, created: Entry)
    requires Separator !in b && b != "" && !Blank(name)
  {
    var e := new Explorer(merge, true);
    var _ := e.HandleSelectedItemChange(Some(FolderId(b)));
    e.SetNewFolderName(name);
    ParentOfFolderId(b);
    var request := e.HandleCreateFolder(Success(created));
    assert request == Some(CreateRequest(name, Some(b)));
    assert e.treeData == merge([], FolderId(b), [created], []);
  }

  /** A session: deleting the selected folder sends its backend id, prunes it
      and clears the selection. */
  method DeleteSelectedFolder(merge: Merge)
  {
    var e := new Explorer(merge, true);
    assert FolderId("3") == "folder-3";
    e.LoadRootFolders(Success([Entry("3", "Old")]));
    var heard := e.HandleSelectedItemChange(Some("folder-3"));
    FolderIdRoundTrip("3");
    assert IsFolderSelection(e.selectedItem) by {
      assert "folder-3"[..|FolderPrefix|] == FolderPrefix;
    }
    var gone := e.HandleDeleteSelectedFolder(Success(()));
    assert gone == Some(Some("3")) && e.selectedItem == None;
    assert e.treeData == [];
  }
}
