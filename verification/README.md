# Bookmark store and alphabet-mapping codec, modelled in Dafny

This project models three pieces of a small Vue bookmark manager:

- **The alphabet-mapping codec** (`src/utils/mapEncode.ts`). `mapEncode` percent-encodes a text. It then writes every UTF-16 code unit of the result as a fixed-width base-n numeral whose digits are symbols of a caller-chosen alphabet. `mapDecode` trims its input and validates the alphabet. It checks the length, reads the input in groups of `width` code points, rebuilds one code unit per group and percent-decodes the result. The helpers are `digitsPerChar`, `parseAlphabet`, `toBaseN` and `fromBaseN`. The errors are `INVALID_ALPHABET`, `INVALID_LENGTH` and `INVALID_CHAR`.
- **The bookmark store** (`src/stores/bookmarks.ts`). It is a class with two sequence fields, `items` and `folders`, that its actions change in place: `add`, `update`, `remove`, `addFolder`, `updateFolder`, `removeFolder` and `setAll`. It also has two queries, `getFolderById` and `count`.
- **The bookmark filter** (`src/composables/useBookmarks.ts`). It narrows the store's items by type, by folder and by a case-insensitive search text.

Files:

- `wrappers.dfy` holds `Option` and `Result`.
- `js_string.dfy` models JavaScript strings as sequences of UTF-16 code units. It covers `Array.from` (split by code point), `trim`, `includes`, `join('')` and `String(n)`.
- `js_array.dfy` covers `filter`, `map`, `findIndex`, `reverse` and the size of a `Set`.
- `map_encode.dfy` is the codec.
- `bookmarks.dfy` is the store.
- `bookmark_filter.dfy` is the filter.

How the model is built:

- Each imperative function of the source is a method with loops, proved equal to a specification function. The properties are then proved about that function:
  - `toBaseN`: the do-while, the padding loop, then reverse and slice;
  - `fromBaseN`;
  - the nested loops of `mapEncode`;
  - the `charToIndex` loop and the group loops of `mapDecode`.
- The store's actions are methods of a class whose `ensures` give the whole new state.
- Clock readings and the percent-encoding functions are parameters. `encodeURIComponent`/`decodeURIComponent` return `None` for a `URIError`. The round-trip lemmas assume, for the one text they are about, that decoding undoes encoding.

## Model

| member | source | states |
|---|---|---|
| MapEncode.DigitsPerChar | src/utils/mapEncode.ts:26-34 | 16 for an alphabet of at most one symbol; otherwise the least width w ≥ 4 with n^w ≥ 65536, so that every code unit fits in w digits |
| MapEncode.DigitsPerCharExamples | src/utils/mapEncode.ts:30-34 | two symbols need 16 digits, ten need 5, sixteen need 4 |
| MapEncode.DigitsPerCharLarge | src/utils/mapEncode.ts:30-34 | every alphabet of 16 or more symbols gets the floor width 4 |
| MapEncode.ParseAlphabet | src/utils/mapEncode.ts:36-53 | succeeds exactly when the alphabet has at least two code points and none repeats; the success value is the alphabet's code points; every failure is INVALID_ALPHABET |
| JsArray.SetSizeIffDistinct | src/utils/mapEncode.ts:45-46 | the size of `new Set(chars)` equals `chars.length` exactly when no element repeats |
| JsString.CodePoints | src/utils/mapEncode.ts:113 | `Array.from` splits a string into pieces of one or two units, a two-unit piece being a surrogate pair, whose concatenation is the string |
| JsString.CodePointsKeepsPairs | src/utils/mapEncode.ts:113 | a surrogate pair is never split: a lone high surrogate piece is never followed by a piece starting with a low surrogate |
| JsString.CodePointsOfJoin | src/utils/mapEncode.ts:113 | splitting a concatenation of scalar values gives those values back |
| JsString.Trim | src/utils/mapEncode.ts:100 | `trim` leaves a string without white space unchanged, and its result neither starts nor ends with white space |
| MapEncode.ToDigits | src/utils/mapEncode.ts:55-67 | exactly w digits, each below n |
| MapEncode.ToBaseN | src/utils/mapEncode.ts:55-67 | the result is the w lowest base-n digits of the number, most significant first |
| MapEncode.ValueOfToDigits | src/utils/mapEncode.ts:55-76 | reading back the w digits of x gives x mod n^w: x itself when x < n^w, and only the low-order digits that `slice(-width)` keeps otherwise |
| MapEncode.ToDigitsOfValue | src/utils/mapEncode.ts:55-76 | a digit string of digits below n is what writing its own value with as many digits gives back |
| MapEncode.ToDigitsSuffix | src/utils/mapEncode.ts:66 | the last w of k ≥ w digits of x are its w lowest digits |
| MapEncode.FromBaseN | src/utils/mapEncode.ts:69-76 | the loop computes the exact positional value of the digits, most significant first |
| MapEncode.EncodeUnits | src/utils/mapEncode.ts:86-92 | the symbols written for a code-unit string number width per unit, and each is a symbol of the alphabet |
| MapEncode.EncodeUnitsGroup | src/utils/mapEncode.ts:86-92 | output group k spells the width digits of code unit k |
| MapEncode.SpellUnits | src/utils/mapEncode.ts:86-92 | the nested loops push exactly the symbols `EncodeUnits` describes |
| MapEncode.MapEncode | src/utils/mapEncode.ts:81-94 | the method computes exactly what `MapEncoded` describes |
| MapEncode.MapEncoded | src/utils/mapEncode.ts:81-94 | the alphabet is checked first (INVALID_ALPHABET), then the percent-encoding (URIError); with both passing the encoding succeeds |
| MapEncode.EncodedSymbols | src/utils/mapEncode.ts:86-93 | for an alphabet of white-space-free scalar symbols, the output survives `trim` unchanged and splits back into exactly the symbols written |
| MapEncode.IndexMap | src/utils/mapEncode.ts:109-112 | the map's keys are the alphabet's symbols, each mapped to a position holding it, and to its own position when none repeats |
| MapEncode.IndexAlphabet | src/utils/mapEncode.ts:109-112 | the loop builds exactly that map |
| MapEncode.ReadGroup | src/utils/mapEncode.ts:116-127 | the inner loop yields the group's digits, or INVALID_CHAR naming the first position without an index (`undefined` past the end) |
| MapEncode.ReadGroups | src/utils/mapEncode.ts:113-130 | the outer loop yields exactly what `DecodeGroups` describes: one code unit per group, or the first group's error |
| MapEncode.MapDecode | src/utils/mapEncode.ts:99-132 | the method computes exactly what `MapDecoded` describes |
| MapEncode.MapDecoded | src/utils/mapEncode.ts:99-132 | an invalid alphabet gives INVALID_ALPHABET; otherwise a trimmed length in code units that is not a multiple of width gives INVALID_LENGTH with the width and that length; otherwise only INVALID_CHAR or URIError can occur |
| MapEncode.GroupDigitsSucceed | src/utils/mapEncode.ts:116-127 | a group of known symbols yields their indices |
| MapEncode.GroupDigitsFail | src/utils/mapEncode.ts:118-125 | a group fails on its first unknown position and names it |
| MapEncode.DecodeGroupsSucceed | src/utils/mapEncode.ts:113-130 | known symbols in whole groups decode, one code unit per group |
| MapEncode.DecodeGroupsUnit | src/utils/mapEncode.ts:115-129 | with known symbols in whole groups, unit k is `String.fromCharCode` of the positional value of the indices of group k, the code points `k*width` to `k*width+width-1` |
| MapEncode.DecodeGroups | src/utils/mapEncode.ts:113-130 | reading the code points in groups fails only with INVALID_CHAR |
| MapEncode.GroupDigits | src/utils/mapEncode.ts:116-127 | a group read from position j yields `width - j` digits, each an index of the alphabet, or fails with INVALID_CHAR |
| MapEncode.FromCharCode | src/utils/mapEncode.ts:129 | `String.fromCharCode` keeps a number below 2^16 and otherwise keeps it modulo 2^16 |
| MapEncode.DecodeGroupsFail | src/utils/mapEncode.ts:113-125 | the first unknown symbol, or the missing tail of a short last group, is the INVALID_CHAR reported |
| MapEncode.MapDecodedInvalidChar | src/utils/mapEncode.ts:113-125 | once the alphabet and length checks pass, decoding fails with INVALID_CHAR naming the first code point outside the alphabet, or `undefined` when only the last group is short |
| MapEncode.DecodeEncodeUnits | src/utils/mapEncode.ts:115-130 | decoding the symbols written for any code-unit string gives that string back |
| MapEncode.RoundTripAsWritten | src/utils/mapEncode.ts:99-132 | `mapDecode(mapEncode(p))` is p exactly when the output's length in code units is a multiple of width, and INVALID_LENGTH otherwise |
| MapEncode.RoundTripSingleUnitSymbols | src/utils/mapEncode.ts:99-132 | with single-unit, white-space-free symbols, `mapDecode(mapEncode(p))` is p |
| MapEncode.RoundTripByCodePoints | src/utils/mapEncode.ts:103-108 | with the length counted in code points, `mapDecode(mapEncode(p))` is p for every alphabet of white-space-free scalar symbols |
| MapEncode.MapDecodedByCodePoints | src/utils/mapEncode.ts:99-132 | the corrected decoder: the same checks in the same order, with INVALID_LENGTH decided by the number of code points of the trimmed text |
| MapEncode.ByCodePointsNamesSymbol | src/utils/mapEncode.ts:118-124 | with the length counted in code points, an INVALID_CHAR always names a symbol |
| MapEncode.AstralAlphabetBreaksRoundTrip | src/utils/mapEncode.ts:103-108 | with the alphabet `a😀`, `A` encodes to 18 code units (16 code points), and decoding that output fails with INVALID_LENGTH |
| MapEncode.BinaryExample | src/utils/mapEncode.ts:81-132 | `mapEncode("A", "01")` is `0000000001000001`, which decodes back to `A` |
| MapEncode.BinaryRejectsLength | src/utils/mapEncode.ts:103-108 | `mapDecode("abc", "01")` fails with INVALID_LENGTH (3 is not a multiple of 16) |
| Bookmarks.BookmarksStore.constructor | src/stores/bookmarks.ts:36-37 | the store starts with the loaded items and folders |
| Bookmarks.BookmarksStore.Count | src/stores/bookmarks.ts:39 | `count` is the number of items; `Add` raises it by one and `Update` keeps it |
| Bookmarks.BookmarksStore.Add | src/stores/bookmarks.ts:46-55 | the new bookmark carries the input's fields, the first clock reading as id and the second as createdAt; it goes first, followed by the old items in order; count grows by one; folders are unchanged |
| Bookmarks.Merged | src/stores/bookmarks.ts:61-69 | the merged item keeps the current id and createdAt |
| Bookmarks.MergedFields | src/stores/bookmarks.ts:62-68 | title, url, type and tags come from the patch when present and stay otherwise; folderId comes from the patch whenever it is not undefined, an explicit null included; a createdAt in the patch is ignored |
| Bookmarks.MergedNoChangeAndIdempotent | src/stores/bookmarks.ts:61-69 | the empty patch changes nothing; merging the same patch twice is merging it once |
| Bookmarks.Updated | src/stores/bookmarks.ts:57-69 | update keeps the length, and every position's id and createdAt |
| Bookmarks.UpdatedAbsent | src/stores/bookmarks.ts:57-59 | update with an id no item has changes nothing |
| Bookmarks.UpdatedFirstMatch | src/stores/bookmarks.ts:58-69 | update merges the first item with the id and leaves every other item, later ones with the same id included, as it was |
| Bookmarks.UpdatedIdempotent | src/stores/bookmarks.ts:57-69 | updating twice with the same patch is updating once |
| Bookmarks.BookmarksStore.Update | src/stores/bookmarks.ts:57-71 | the items become the updated items, so the count is unchanged; folders are unchanged |
| Bookmarks.Removed | src/stores/bookmarks.ts:73-76 | the remaining items are exactly those of another id, each as many times as before, kept in their relative order |
| Bookmarks.RemoveAfterAdd | src/stores/bookmarks.ts:46-76 | removing a just-added bookmark by its id restores the previous items when its id was fresh |
| Bookmarks.BookmarksStore.Remove | src/stores/bookmarks.ts:73-76 | the items become the removed items; folders are unchanged |
| JsString.DecimalString | src/stores/bookmarks.ts:79 | `String(n)`: at least one digit, no leading zero, two or more digits exactly from 10 on, and the digits denote n |
| Bookmarks.FolderIdAt | src/stores/bookmarks.ts:79 | a folder id is `f_` followed by decimal digits that denote the clock reading |
| Bookmarks.FolderIdsDiffer | src/stores/bookmarks.ts:79 | folders created at different clock readings get different ids |
| Bookmarks.BookmarksStore.AddFolder | src/stores/bookmarks.ts:78-83 | the returned id is `f_` and the clock reading; the folder is appended with order equal to the previous folder count; earlier folders and the items are unchanged |
| Bookmarks.FolderById | src/stores/bookmarks.ts:101-103 | none exactly when no folder has the id; otherwise the first folder with it |
| Bookmarks.BookmarksStore.GetFolderById | src/stores/bookmarks.ts:101-103 | the query answers that lookup on the current folders |
| Bookmarks.Renamed | src/stores/bookmarks.ts:85-91 | a rename keeps the folder count, and every folder's id and order |
| Bookmarks.RenamedThenFound | src/stores/bookmarks.ts:85-91 | without a folder of the id nothing changes; otherwise the folder found under the id afterwards is the old one with the new name, and every other folder is left alone |
| Bookmarks.BookmarksStore.UpdateFolder | src/stores/bookmarks.ts:85-91 | the folders become the renamed folders; items are unchanged |
| Bookmarks.FoldersWithout | src/stores/bookmarks.ts:94 | the remaining folders are exactly those of another id, each as many times as before, in order |
| Bookmarks.Reassigned | src/stores/bookmarks.ts:95-97 | reassigning keeps the item count |
| Bookmarks.RemoveFolderLeavesNoTrace | src/stores/bookmarks.ts:93-99 | no folder with the id remains; exactly the items of that folder get the new folderId and nothing else changes; unless they are moved back into it, no item refers to the folder any more |
| Bookmarks.BookmarksStore.RemoveFolder | src/stores/bookmarks.ts:93-99 | folders and items become those two results |
| Bookmarks.BookmarksStore.SetAll | src/stores/bookmarks.ts:105-109 | the items are replaced; the folders are replaced when new ones are given (an empty list included) and kept otherwise |
| JsArray.FindIndex | src/stores/bookmarks.ts:58 | -1 exactly when no element passes; otherwise the first index that passes |
| JsArray.Filter | src/stores/bookmarks.ts:74 | the elements that pass, and only they, each as many times as it occurs, in their original order |
| JsArray.Map | src/stores/bookmarks.ts:95-97 | same length, element k mapped from element k |
| JsArray.Reverse | src/utils/mapEncode.ts:66 | same length, element k is the element k places from the end |
| JsString.Join | src/utils/mapEncode.ts:93 | `join('')` starts with the first part |
| JsString.JoinOfUnits | src/utils/mapEncode.ts:131 | joining one-unit strings gives the string of those units |
| JsString.JoinAppend | src/utils/mapEncode.ts:93 | joining two lists of parts one after the other is joining each and concatenating |
| BookmarkFilter.Filtered | src/composables/useBookmarks.ts:12-28 | the result is an order-preserving subsequence of the items and holds an item exactly when it passes all three criteria: type unless 'all', folder unless null or empty, search text unless blank |
| BookmarkFilter.ByTypeIsFilter | src/composables/useBookmarks.ts:14-16 | the type stage keeps exactly the items of the chosen type, and all items for 'all' |
| BookmarkFilter.ByFolderIsFilter | src/composables/useBookmarks.ts:17-19 | the folder stage keeps exactly the items of the folder, and all items for a null or empty id |
| BookmarkFilter.BySearchIsFilter | src/composables/useBookmarks.ts:20-26 | the search stage keeps exactly the items whose lowercased title or url contains the lowercased trimmed query, and all items for a blank search |
| JsString.Includes | src/composables/useBookmarks.ts:24 | `includes` holds exactly when the needle is a prefix of the text from some position on |
| BookmarkFilter.FilteredIsOneFilter | src/composables/useBookmarks.ts:12-28 | the chain of filters equals one filter by the conjunction of the criteria: same items, same order, same repetitions |
| BookmarkFilter.NoCriteriaKeepsAll | src/composables/useBookmarks.ts:12-28 | with every criterion off the result is the store's list itself |
| BookmarkFilter.SearchIgnoresSurroundingSpace | src/composables/useBookmarks.ts:20-21 | white space around the search text makes no difference |
| JsString.TrimIdempotent | src/composables/useBookmarks.ts:20-21 | trimming twice is trimming once |

## Left out

- `save`, `loadBookmarks` and `loadFolders` (src/stores/bookmarks.ts:8-33, 41-44) are left out. They are localStorage I/O and JSON parsing, so the store starts from whatever lists the constructor is given.
- `encodeURIComponent` and `decodeURIComponent` are parameters, not definitions. They return `None` for a `URIError`. The round-trip lemmas assume `decodeURIComponent(encodeURIComponent(p)) == p` for their own text p. No fact that the encoding produces ASCII is needed, because every code unit fits in `width` digits.
- MapEncode.DigitsPerChar is defined with integers instead of `Math.ceil(Math.log(65536) / Math.log(n))`. Rounding in that floating-point expression is not modelled.
- MapEncode.FromBaseN computes the exact positional value, while JavaScript numbers are doubles: `val * n + digit` is exact only up to 2^53. A group whose value exceeds 2^53 needs at least 9742 symbols at width 4 (9742^4 > 2^53). In the source such a value may be rounded, so `String.fromCharCode` can see a different number; for example, with 10000 symbols, four symbol 9999s have the exact value 9999999999999999, which rounds to 10^16 and gives unit 0, where the model gives 65535. Outputs of `mapEncode` are not affected: every group it writes has a value below 65536.
- MapEncode.ReadGroups inherits this: for alphabets of 9742 symbols or more, its units are the exact positional values modulo 2^16, which can differ from the source's on groups `mapEncode` never writes.
- MapEncode.ToBaseN requires `width >= 1`. With `width` 0, `slice(-0)` returns the whole array. The codec only calls it with `digitsPerChar(n)`, which is at least 4.
- The error messages' text is left out; errors are modelled by their code alone. INVALID_LENGTH carries the width and length, and INVALID_CHAR carries the offending code point or `undefined`.
- `toLowerCase` is a parameter of the filter, because Unicode case mapping is not modelled.
- `Date.now()` is a parameter: two readings for `add`, one for `addFolder`. The readings for `add` are any integers. The reading for `addFolder` is a non-negative integer, because the model writes `String(n)` only for those.
- `removeFolder`'s default `moveToFolderId = null` is left to the caller, who passes `None`.
- Bookmarks.BookmarksStore.UpdateFolder: the folder is renamed by replacing the sequence element. The source mutates the folder object, so a caller holding that object from `getFolderById` also sees the new name. That aliasing is not modelled.
- The store's reactivity (Vue `ref` and `computed`) is not modelled. `count` is `|items|` and `filtered` is a function of the items.
- Runtime values outside the declared TypeScript types are not modelled, such as a `null` title in an update patch.
- The rest of the repository is not part of this model: the encryption composable, the public bookmark fetcher, the theme and language stores, the router, the configuration and the toast helper.

## Findings

| source | as written | input that shows it | evidently intended | confidence | as-written member | corrected member |
|---|---|---|---|---|---|---|
| src/utils/mapEncode.ts:103-108 | `mapDecode` checks the trimmed input's length in UTF-16 code units (`trimmed.length`). It then reads groups of `width` code points (`Array.from(trimmed)`). When the alphabet has symbols outside the Basic Multilingual Plane, the two counts differ. `mapDecode` then rejects the output of `mapEncode` exactly when that output's length in code units is not a multiple of width. This happens for some texts with a mixed alphabet. It never happens with an alphabet made only of such symbols, where every output has `2·width` units per code unit. | alphabet `a😀` (two symbols, width 16), plaintext `A`: the output is 16 code points and 18 code units, and decoding it fails with INVALID_LENGTH | the length is counted in code points, the unit the groups are read in, so that `mapDecode(mapEncode(p)) == p` for every valid alphabet whose symbols are white-space-free Unicode scalar values (no lone surrogates) | high (not executed) | MapEncode.AstralAlphabetBreaksRoundTrip | MapEncode.RoundTripByCodePoints |

In this finding the model follows the code. The doc comment of `mapDecode` (src/utils/mapEncode.ts:97) describes the input as groups of `width` characters, and the loop reads it as groups of `width` code points of `Array.from` (line 113); `MapDecodedByCodePoints` counts the length in that same unit. The code's length check counts code units, which is what `MapDecoded` and the `MapDecode` method model. `RoundTripAsWritten` states exactly when the code as written round-trips.
