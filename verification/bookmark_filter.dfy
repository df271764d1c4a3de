/** The list `useBookmarksFilter` computes in src/composables/useBookmarks.ts: the store's
    items narrowed by type, by folder and by a search text. `toLowerCase` is a parameter,
    since Unicode case mapping is not modelled. */
module BookmarkFilter {
  import opened Wrappers
  import opened JsString
  import opened JsArray
  import opened Bookmarks

  /** `BookmarkType | 'all'`. */
  datatype TypeFilter = AllTypes | OnlyType(kind: BookmarkType)

  /** The folder filter is on for a non-empty folder id (`if (folderId)`). */
  predicate FolderFilterOn(folderId: Option<Str>) {
    folderId.Some? && folderId.value != []
  }

  /** `(b) => b.type === typeFilter`. */
  function OfKind(kind: BookmarkType): Bookmark -> bool {
    (b: Bookmark) => b.kind == kind
  }

  /** `(b) => b.folderId === folderId`. */
  function InFolder(folderId: Option<Str>): Bookmark -> bool {
    (b: Bookmark) => b.folderId == folderId
  }

  /** The search callback: the lowercased title or url contains the query `q`. */
  function Mentions(q: Str, toLowerCase: Str -> Str): Bookmark -> bool {
    (b: Bookmark) => Includes(toLowerCase(b.title), q) || Includes(toLowerCase(b.url), q)
  }

  /** The type criterion; it holds of every bookmark for `'all'`. */
  predicate TypeOk(b: Bookmark, typeFilter: TypeFilter) {
    typeFilter.OnlyType? ==> b.kind == typeFilter.kind
  }

  /** The folder criterion; it holds of every bookmark for a `null` or empty folder id. */
  predicate FolderOk(b: Bookmark, folderId: Option<Str>) {
    FolderFilterOn(folderId) ==> b.folderId == folderId
  }

  /** The search criterion; it holds of every bookmark for a blank search. */
  predicate SearchOk(b: Bookmark, search: Str, toLowerCase: Str -> Str) {
    Trim(search) != [] ==> Mentions(toLowerCase(Trim(search)), toLowerCase)(b)
  }

  /** The three criteria together. */
  predicate Matches(b: Bookmark, search: Str, typeFilter: TypeFilter, folderId: Option<Str>, toLowerCase: Str -> Str) {
    TypeOk(b, typeFilter) && FolderOk(b, folderId) && SearchOk(b, search, toLowerCase)
  }

  function TypeTest(typeFilter: TypeFilter): Bookmark -> bool {
    (b: Bookmark) => TypeOk(b, typeFilter)
  }

  function FolderTest(folderId: Option<Str>): Bookmark -> bool {
    (b: Bookmark) => FolderOk(b, folderId)
  }

  function SearchTest(search: Str, toLowerCase: Str -> Str): Bookmark -> bool {
    (b: Bookmark) => SearchOk(b, search, toLowerCase)
  }

  function TypeAndFolderTest(typeFilter: TypeFilter, folderId: Option<Str>): Bookmark -> bool {
    (b: Bookmark) => TypeOk(b, typeFilter) && FolderOk(b, folderId)
  }

  /** `Matches` as a filter callback. */
  function MatchTest(search: Str, typeFilter: TypeFilter, folderId: Option<Str>, toLowerCase: Str -> Str): Bookmark -> bool {
    (b: Bookmark) => Matches(b, search, typeFilter, folderId, toLowerCase)
  }

  /** The list after the type filter. */
  function ByType(items: seq<Bookmark>, typeFilter: TypeFilter): seq<Bookmark> {
    if typeFilter.OnlyType? then Filter(items, OfKind(typeFilter.kind)) else items
  }

  /** The list after the folder filter. */
  function ByFolder(list: seq<Bookmark>, folderId: Option<Str>): seq<Bookmark> {
    if FolderFilterOn(folderId) then Filter(list, InFolder(folderId)) else list
  }

  /** The list after the search filter. */
  function BySearch(list: seq<Bookmark>, search: Str, toLowerCase: Str -> Str): seq<Bookmark> {
    var trimmed := Trim(search);
    if trimmed != [] then Filter(list, Mentions(toLowerCase(trimmed), toLowerCase)) else list
  }

  /** `filtered`: the chain of `filter` calls, each applied only when its criterion is set.
      The result holds exactly the matching items, in their original order. */
  function Filtered(items: seq<Bookmark>, search: Str, typeFilter: TypeFilter, folderId: Option<Str>,
                    toLowerCase: Str -> Str): (r: seq<Bookmark>)
    ensures forall b :: b in r <==> b in items && Matches(b, search, typeFilter, folderId, toLowerCase)
    ensures IsSubsequence(r, items)
  {
    var byType := ByType(items, typeFilter);
    var byFolder := ByFolder(byType, folderId);
    var r := BySearch(byFolder, search, toLowerCase);
    SubsequenceReflexive(items);
    SubsequenceReflexive(byType);
    SubsequenceReflexive(byFolder);
    SubsequenceTransitive(byFolder, byType, items);
    SubsequenceTransitive(r, byFolder, items);
    r
  }

  /** The type stage filters by the type criterion. */
  lemma ByTypeIsFilter(list: seq<Bookmark>, typeFilter: TypeFilter)
    ensures ByType(list, typeFilter) == Filter(list, TypeTest(typeFilter))
  {
    if typeFilter.OnlyType? {
      FilterExt(list, OfKind(typeFilter.kind), TypeTest(typeFilter));
    } else {
      FilterAll(list, TypeTest(typeFilter));
    }
  }

  /** The folder stage filters by the folder criterion. */
  lemma ByFolderIsFilter(list: seq<Bookmark>, folderId: Option<Str>)
    ensures ByFolder(list, folderId) == Filter(list, FolderTest(folderId))
  {
    if FolderFilterOn(folderId) {
      FilterExt(list, InFolder(folderId), FolderTest(folderId));
    } else {
      FilterAll(list, FolderTest(folderId));
    }
  }

  /** The search stage filters by the search criterion. */
  lemma BySearchIsFilter(list: seq<Bookmark>, search: Str, toLowerCase: Str -> Str)
    ensures BySearch(list, search, toLowerCase) == Filter(list, SearchTest(search, toLowerCase))
  {
    if Trim(search) != [] {
      FilterExt(list, Mentions(toLowerCase(Trim(search)), toLowerCase), SearchTest(search, toLowerCase));
    } else {
      FilterAll(list, SearchTest(search, toLowerCase));
    }
  }

  /** The chain is one filter by the conjunction of the criteria: same items, same order,
      same multiplicities. */
  lemma FilteredIsOneFilter(items: seq<Bookmark>, search: Str, typeFilter: TypeFilter, folderId: Option<Str>,
                            toLowerCase: Str -> Str)
    ensures Filtered(items, search, typeFilter, folderId, toLowerCase)
              == Filter(items, MatchTest(search, typeFilter, folderId, toLowerCase))
  {
    var byType := ByType(items, typeFilter);
    ByTypeIsFilter(items, typeFilter);
    ByFolderIsFilter(byType, folderId);
    BySearchIsFilter(ByFolder(byType, folderId), search, toLowerCase);
    FilterFilter(items, TypeTest(typeFilter), FolderTest(folderId), TypeAndFolderTest(typeFilter, folderId));
    FilterFilter(items, TypeAndFolderTest(typeFilter, folderId), SearchTest(search, toLowerCase),
                 MatchTest(search, typeFilter, folderId, toLowerCase));
  }

  /** With every criterion off the list is the store's list itself. */
  lemma NoCriteriaKeepsAll(items: seq<Bookmark>, search: Str, folderId: Option<Str>, toLowerCase: Str -> Str)
    requires !FolderFilterOn(folderId) && Trim(search) == []
    ensures Filtered(items, search, AllTypes, folderId, toLowerCase) == items
  {
  }

  /** White space around the search text makes no difference. */
  lemma SearchIgnoresSurroundingSpace(items: seq<Bookmark>, search: Str, typeFilter: TypeFilter,
                                      folderId: Option<Str>, toLowerCase: Str -> Str)
    ensures Filtered(items, search, typeFilter, folderId, toLowerCase)
              == Filtered(items, Trim(search), typeFilter, folderId, toLowerCase)
  {
    TrimIdempotent(search);
  }
}
