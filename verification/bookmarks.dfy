/** The bookmark store of src/stores/bookmarks.ts: two lists, `items` and `folders`, that
    the store's actions change in place. Persistence (`save` and the two loaders) is not
    modelled, and the clock readings `Date.now()` are parameters. */
module Bookmarks {
  import opened Wrappers
  import opened JsString
  import opened JsArray

  /** `BookmarkType`. */
  datatype BookmarkType = Article | Video | Other

  /** `Bookmark`. The field `type` is called `kind` here; a `folderId` of `null` is `None`. */
  datatype Bookmark = Bookmark(
    id: int,
    title: Str,
    url: Str,
    kind: BookmarkType,
    tags: seq<Str>,
    folderId: Option<Str>,
    createdAt: int)

  /** `BookmarkFolder`. */
  datatype Folder = Folder(id: Str, name: Str, order: int)

  /** The argument of `add`: a bookmark without `id` and `createdAt`. */
  datatype NewBookmark = NewBookmark(
    title: Str,
    url: Str,
    kind: BookmarkType,
    tags: seq<Str>,
    folderId: Option<Str>)

  /** The argument of `update`, `Partial<Omit<Bookmark, 'id'>>`: `None` is an absent field.
      `folderId` can be present with the value `null`, which is `Some(None)`. */
  datatype Patch = Patch(
    title: Option<Str>,
    url: Option<Str>,
    kind: Option<BookmarkType>,
    tags: Option<seq<Str>>,
    folderId: Option<Option<Str>>,
    createdAt: Option<int>)

  /** The empty patch `{}`. */
  const NoChange := Patch(None, None, None, None, None, None)

  /** `patch ?? fallback`. */
  function Or<T>(patch: Option<T>, fallback: T): T {
    if patch.Some? then patch.value else fallback
  }

  // ---------------------------------------------------------------------------
  // Items

  /** The item `update` writes over `cur`: the patched fields, with `id` and `createdAt`
      always taken from `cur`. */
  function Merged(cur: Bookmark, patch: Patch): (b: Bookmark)
    ensures b.id == cur.id && b.createdAt == cur.createdAt
  {
    Bookmark(
      cur.id,
      Or(patch.title, cur.title),
      Or(patch.url, cur.url),
      Or(patch.kind, cur.kind),
      Or(patch.tags, cur.tags),
      Or(patch.folderId, cur.folderId),
      cur.createdAt)
  }

  /** Each patched field is the patch's value when present and the old one when absent;
      a `createdAt` in the patch is ignored. */
  lemma MergedFields(cur: Bookmark, patch: Patch)
    ensures var b := Merged(cur, patch);
      && (patch.title.Some? ==> b.title == patch.title.value)
      && (patch.title.None? ==> b.title == cur.title)
      && (patch.url.Some? ==> b.url == patch.url.value)
      && (patch.url.None? ==> b.url == cur.url)
      && (patch.kind.Some? ==> b.kind == patch.kind.value)
      && (patch.kind.None? ==> b.kind == cur.kind)
      && (patch.tags.Some? ==> b.tags == patch.tags.value)
      && (patch.tags.None? ==> b.tags == cur.tags)
      && (patch.folderId.Some? ==> b.folderId == patch.folderId.value)
      && (patch.folderId.None? ==> b.folderId == cur.folderId)
      && (patch.createdAt.Some? ==> b.createdAt == cur.createdAt)
  {
  }

  /** Merging the empty patch changes nothing, and merging a patch twice is merging it once. */
  lemma MergedNoChangeAndIdempotent(cur: Bookmark, patch: Patch)
    ensures Merged(cur, NoChange) == cur
    ensures Merged(Merged(cur, patch), patch) == Merged(cur, patch)
  {
  }

  /** `(b) => b.id === id`. */
  function HasId(id: int): Bookmark -> bool {
    (b: Bookmark) => b.id == id
  }

  /** The items after `update(id, patch)`: the first item with that id merged with the
      patch, or the same items when there is none. */
  function Updated(items: seq<Bookmark>, id: int, patch: Patch): (r: seq<Bookmark>)
    ensures |r| == |items|
    ensures forall k :: 0 <= k < |r| ==> r[k].id == items[k].id && r[k].createdAt == items[k].createdAt
  {
    var idx := FindIndex(items, HasId(id));
    if idx == -1 then items else items[idx := Merged(items[idx], patch)]
  }

  /** Without an item of that id, `update` changes nothing. */
  lemma UpdatedAbsent(items: seq<Bookmark>, id: int, patch: Patch)
    requires forall k :: 0 <= k < |items| ==> items[k].id != id
    ensures Updated(items, id, patch) == items
  {
    assert FindIndex(items, HasId(id)) == -1 by {
      forall k | 0 <= k < |items| ensures !HasId(id)(items[k]) {
      }
    }
  }

  /** `update` merges the first item of that id and leaves every other item, later items
      of the same id included, as it was. */
  lemma UpdatedFirstMatch(items: seq<Bookmark>, id: int, patch: Patch, i: nat)
    requires i < |items| && items[i].id == id
    requires forall k :: 0 <= k < i ==> items[k].id != id
    ensures Updated(items, id, patch)[i] == Merged(items[i], patch)
    ensures forall k :: 0 <= k < |items| && k != i ==> Updated(items, id, patch)[k] == items[k]
  {
    assert HasId(id)(items[i]);
    assert FindIndex(items, HasId(id)) == i;
  }

  /** Updating twice with the same patch is updating once. */
  lemma UpdatedIdempotent(items: seq<Bookmark>, id: int, patch: Patch)
    ensures Updated(Updated(items, id, patch), id, patch) == Updated(items, id, patch)
  {
    var once := Updated(items, id, patch);
    var idx := FindIndex(items, HasId(id));
    if idx == -1 {
      assert once == items;
    } else {
      assert forall k :: 0 <= k < |items| ==> HasId(id)(once[k]) == HasId(id)(items[k]);
      UpdatedFirstMatch(once, id, patch, idx);
      MergedNoChangeAndIdempotent(items[idx], patch);
    }
  }

  /** The items after `remove(id)`: every item of another id, in order. */
  function Removed(items: seq<Bookmark>, id: int): (r: seq<Bookmark>)
    ensures forall b :: b in r <==> b in items && b.id != id
    ensures forall b :: multiset(r)[b] == if b.id != id then multiset(items)[b] else 0
    ensures IsSubsequence(r, items)
  {
    Filter(items, (b: Bookmark) => b.id != id)
  }

  /** Removing a just-added bookmark by its id restores the list, when no other item
      shares that id. */
  lemma RemoveAfterAdd(items: seq<Bookmark>, b: Bookmark)
    requires forall k :: 0 <= k < |items| ==> items[k].id != b.id
    ensures Removed([b] + items, b.id) == items
  {
    var keep := (x: Bookmark) => x.id != b.id;
    var s := [b] + items;
    assert s[1..] == items;
    FilterAll(items, keep);
  }

  // ---------------------------------------------------------------------------
  // Folders

  /** `f_${now}`: the id `addFolder` gives a folder created at time `now`. */
  function FolderIdAt(now: nat): (id: Str)
    ensures |id| >= 3 && id[..2] == [0x66, 0x5F]
    ensures forall k :: 2 <= k < |id| ==> IsAsciiDigit(id[k])
    ensures DecimalValue(id[2..]) == now
  {
    [0x66, 0x5F] + DecimalString(now)
  }

  /** Folders created at different times get different ids. */
  lemma FolderIdsDiffer(a: nat, b: nat)
    requires a != b
    ensures FolderIdAt(a) != FolderIdAt(b)
  {
  }

  /** `(f) => f.id === id`. */
  function FolderHasId(id: Str): Folder -> bool {
    (f: Folder) => f.id == id
  }

  /** `folders.find((f) => f.id === id)`: the first folder with that id. */
  function FolderById(folders: seq<Folder>, id: Str): (r: Option<Folder>)
    ensures r.None? <==> forall k :: 0 <= k < |folders| ==> folders[k].id != id
    ensures r.Some? ==> exists i :: 0 <= i < |folders| && folders[i] == r.value && r.value.id == id
                                    && forall k :: 0 <= k < i ==> folders[k].id != id
  {
    var idx := FindIndex(folders, FolderHasId(id));
    if idx == -1 then None
    else
      assert folders[idx].id == id;
      Some(folders[idx])
  }

  /** The folders after `updateFolder(id, name)`: the first folder with that id renamed. */
  function Renamed(folders: seq<Folder>, id: Str, name: Str): (r: seq<Folder>)
    ensures |r| == |folders|
    ensures forall k :: 0 <= k < |r| ==> r[k].id == folders[k].id && r[k].order == folders[k].order
  {
    var idx := FindIndex(folders, FolderHasId(id));
    if idx == -1 then folders else folders[idx := folders[idx].(name := name)]
  }

  /** After a rename the folder found under that id carries the new name; without a folder
      of that id nothing changes. Every other folder, a later one of the same id included, is
      left as it was. */
  lemma RenamedThenFound(folders: seq<Folder>, id: Str, name: Str)
    ensures FolderById(folders, id).None? ==> Renamed(folders, id, name) == folders
    ensures FolderById(folders, id).Some? ==>
              FolderById(Renamed(folders, id, name), id) == Some(FolderById(folders, id).value.(name := name))
    ensures forall k :: 0 <= k < |folders| && (folders[k].id != id || exists j :: 0 <= j < k && folders[j].id == id) ==>
              Renamed(folders, id, name)[k] == folders[k]
  {
    var idx := FindIndex(folders, FolderHasId(id));
    var r := Renamed(folders, id, name);
    if idx != -1 {
      assert forall k :: 0 <= k < |folders| ==> FolderHasId(id)(r[k]) == FolderHasId(id)(folders[k]);
      assert FindIndex(r, FolderHasId(id)) == idx;
    }
  }

  /** The folders after `removeFolder(id)`: every folder of another id, in order. */
  function FoldersWithout(folders: seq<Folder>, id: Str): (r: seq<Folder>)
    ensures forall f :: f in r <==> f in folders && f.id != id
    ensures forall f :: multiset(r)[f] == if f.id != id then multiset(folders)[f] else 0
    ensures IsSubsequence(r, folders)
  {
    Filter(folders, (f: Folder) => f.id != id)
  }

  /** The items after `removeFolder(id, moveTo)`: the items of that folder moved to
      `moveTo`, all others as they were. */
  function Reassigned(items: seq<Bookmark>, id: Str, moveTo: Option<Str>): (r: seq<Bookmark>)
    ensures |r| == |items|
  {
    Map(items, (b: Bookmark) => if b.folderId == Some(id) then b.(folderId := moveTo) else b)
  }

  /** Exactly the items of the removed folder change, and only in `folderId`; unless they
      are moved back into it, no item refers to that folder any more, nor does any folder
      of that id remain. */
  lemma RemoveFolderLeavesNoTrace(folders: seq<Folder>, items: seq<Bookmark>, id: Str, moveTo: Option<Str>)
    ensures FolderById(FoldersWithout(folders, id), id).None?
    ensures forall k :: 0 <= k < |items| ==>
              Reassigned(items, id, moveTo)[k]
                == if items[k].folderId == Some(id) then items[k].(folderId := moveTo) else items[k]
    ensures moveTo != Some(id) ==>
              forall k :: 0 <= k < |items| ==> Reassigned(items, id, moveTo)[k].folderId != Some(id)
  {
    var rest := FoldersWithout(folders, id);
    forall k | 0 <= k < |rest| ensures rest[k].id != id {
      assert rest[k] in rest;
    }
  }

  // ---------------------------------------------------------------------------
  // The store

  /** `useBookmarksStore`: the two lists and the actions that change them. */
  class BookmarksStore {
    var items: seq<Bookmark>
    var folders: seq<Folder>

    /** The store over the lists the loaders returned. */
    constructor(loadedItems: seq<Bookmark>, loadedFolders: seq<Folder>)
      ensures items == loadedItems && folders == loadedFolders
    {
      items := loadedItems;
      folders := loadedFolders;
    }

    /** `count`: the number of bookmarks. */
    function Count(): (n: nat)
      reads this
      ensures n == |items|
    {
      |items|
    }

    /** `add`: the new bookmark, stamped with the two clock readings, goes first. */
    method Add(input: NewBookmark, idTime: int, createdTime: int) returns (newItem: Bookmark)
      modifies this
      ensures newItem.id == idTime && newItem.createdAt == createdTime
      ensures newItem.title == input.title && newItem.url == input.url && newItem.kind == input.kind
      ensures newItem.tags == input.tags && newItem.folderId == input.folderId
      ensures items == [newItem] + old(items) && folders == old(folders)
      ensures Count() == old(Count()) + 1
    {
      newItem := Bookmark(idTime, input.title, input.url, input.kind, input.tags, input.folderId, createdTime);
      items := [newItem] + items;
    }

    /** `update`: merge the patch into the first item of that id, if any. */
    method Update(id: int, patch: Patch)
      modifies this
      ensures items == Updated(old(items), id, patch) && folders == old(folders)
      ensures Count() == old(Count())
    {
      var idx := FindIndex(items, HasId(id));
      if idx == -1 {
        return;
      }
      var cur := items[idx];
      items := items[idx := Merged(cur, patch)];
    }

    /** `remove`: drop every item of that id. */
    method Remove(id: int)
      modifies this
      ensures items == Removed(old(items), id) && folders == old(folders)
    {
      items := Removed(items, id);
    }

    /** `addFolder`: append a folder named `name` whose `order` is the number of folders
      before it, with an id made from the clock reading `now`. */
    method AddFolder(name: Str, now: nat) returns (id: Str)
      modifies this
      ensures id == FolderIdAt(now)
      ensures folders == old(folders) + [Folder(id, name, |old(folders)|)] && items == old(items)
    {
      id := FolderIdAt(now);
      folders := folders + [Folder(id, name, |folders|)];
    }

    /** `updateFolder`: rename the first folder of that id, if any. */
    method UpdateFolder(id: Str, name: Str)
      modifies this
      ensures folders == Renamed(old(folders), id, name) && items == old(items)
    {
      var idx := FindIndex(folders, FolderHasId(id));
      if idx != -1 {
        folders := folders[idx := folders[idx].(name := name)];
      }
    }

    /** `removeFolder`: drop the folders of that id and move their items to `moveTo`
        (`null` by default). */
    method RemoveFolder(id: Str, moveTo: Option<Str>)
      modifies this
      ensures folders == FoldersWithout(old(folders), id)
      ensures items == Reassigned(old(items), id, moveTo)
    {
      folders := FoldersWithout(folders, id);
      items := Reassigned(items, id, moveTo);
    }

    /** `getFolderById`. */
    function GetFolderById(id: Str): (r: Option<Folder>)
      reads this
      ensures r == FolderById(folders, id)
    {
      FolderById(folders, id)
    }

    /** `setAll`: replace the items, and the folders when new ones are given. */
    method SetAll(newItems: seq<Bookmark>, newFolders: Option<seq<Folder>>)
      modifies this
      ensures items == newItems
      ensures folders == if newFolders.Some? then newFolders.value else old(folders)
    {
      items := newItems;
      if newFolders.Some? {
        folders := newFolders.value;
      }
    }
  }
}
