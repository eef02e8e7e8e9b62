# Tagz tag bookkeeping engine in Dafny

Tagz is a desktop file browser that lets a user attach free-text tags to files. This project models the
bookkeeping engine under its user interface. It appears twice, in `Beta/ver02/Tagz.py` and in the
older top-level `Tagz.py`. The store, suggestion, filter, sort and recent-directory code is the same
in both apart from formatting; the two differ in the file-type classifier, and only the Beta version
can move and rename files.

The modules are:

- `Text` (text.dfy): ASCII lowercasing, `str.strip` over Python's whitespace set, `str.split` on one or several separator
  characters, dropping empty pieces, and the code-point string order that Python's `sorted` uses.
- `FileType` (filetype.dfy): both `get_file_type` variants. Beta takes `os.path.splitext` and looks the
  extension up in eight sets. The top-level file runs `endswith` over the whole lowercased name in five
  groups.
- `Duration` (duration.dfy): `format_length`, proved against a parser of its own output.
- `TagStore` and `TagStoreProperties` (tagstore.dfy): the two JSON stores.
  - The global `tags.json` maps a path to a tag list.
  - Each directory has a `local_tags.json` that maps a base name to a tag list.
  - A store file is `Missing`, `Corrupt` or a `Json` map.
  - The class `TagDatabase` holds both stores. Its methods are `add_tag_to_file`,
    `remove_tag_from_file`, `get_tags_for_file` and `get_all_tags`.
- `Suggest` (suggest.dfy): `generate_suggested_tags`, including the cascade split over fifteen
  separators, and the directory-segment and already-applied filtering of `update_suggested_tags`.
- `Query` (query.dfy): `search_files_by_tags`, the name and tag filter of `apply_filters`, and the stable
  per-column sort behind `sort_files`.
- `View` (view.dfy): the browser state as a class `Browser`.
  - Its fields are `files`, `filtered_files`, the search-tag list, the filter text and the sort column
    and direction.
  - It keeps whether `filtered_files` is the same list object as `files`.
  - Its methods are the sort, filter and tag-entry operations.
- `Relocation` (relocation.dfy): Beta's `move_files` and `rename_selected_file`. The file-system
  outcome of each move or rename is an input.
- `Recent` (recent.dfy): `add_recent_directory` over the `RecentDirectories` section of the
  configuration. The section is an ordered list of timestamp/directory options.

## Model

| member | source | states |
|---|---|---|
| TagStore.TagDatabase.AddTag | Beta/ver02/Tagz.py:206-242 | the new state and result are those of the store-level add; `TagStoreProperties.AddTagEffect` says what that means |
| TagStoreProperties.AddTagEffect | Beta/ver02/Tagz.py:206-242 | the result is True exactly when the tag is not blank. A blank tag leaves both stores untouched. Otherwise both files become JSON and each list gains the tag, untrimmed and at the end, only when it was absent, so the tag is then among the file's tags |
| TagStoreProperties.AddTagFrame | Tagz.py:117-162 | adding a tag to one path changes no other path's global list, local list or merged tags |
| TagStoreProperties.AddTagKeeps | Tagz.py:117-162 | adding a tag never removes a tag any file already had |
| TagStoreProperties.AddTagIdempotent | Beta/ver02/Tagz.py:218-242 | adding the same tag twice leaves the same stores as adding it once |
| TagStoreProperties.AddPresentTag | Beta/ver02/Tagz.py:218-242 | a tag already in both lists leaves the stores as they were and still reports True |
| TagStoreProperties.AddTagWellFormed | Beta/ver02/Tagz.py:218-242 | adding keeps every list duplicate-free and non-empty |
| TagStore.TagDatabase.RemoveTag | Beta/ver02/Tagz.py:244-278 | the new state and result are those of the store-level remove |
| TagStoreProperties.RemoveTagReport | Beta/ver02/Tagz.py:244-278 | the result is True exactly when the tag was in the global or the local list. A missing or corrupt store file is never created or rewritten |
| TagStoreProperties.RemoveTagEffect | Beta/ver02/Tagz.py:244-278 | on stores whose lists hold no duplicate tag (the shape adding keeps; with a duplicate, `list.remove` leaves a copy), afterwards the tag is in neither list, and the file's tags are the old ones less this tag |
| TagStoreProperties.RemoveTagFrame | Tagz.py:164-206 | removing a tag from one path changes no other path's lists |
| TagStoreProperties.RemoveTagWellFormed | Beta/ver02/Tagz.py:244-278 | removing keeps lists duplicate-free, and a key whose list empties is deleted |
| TagStoreProperties.AddThenRemove | Tagz.py:117-206 | adding a new tag and then removing it reports a change and restores the file's lists. If the tag was the only one, the path is a key in neither store |
| TagStore.MergeTags | Beta/ver02/Tagz.py:280-306 | the merged list starts with the global list and then holds only local tags absent from it. Its members are exactly the union, and it is duplicate-free when the global list is |
| TagStore.MergeTagsOrder | Beta/ver02/Tagz.py:280-306 | after the global list come exactly the local tags that are neither global nor an earlier local tag, in local-list order |
| TagStore.TagDatabase.TagsFor | Beta/ver02/Tagz.py:280-306 | the result is the global list followed by the local-only tags, and a tag is in it iff it is in either list |
| TagStore.TagDatabase.AllTags | Beta/ver02/Tagz.py:372-384 | the result is strictly sorted and holds exactly the tags of the global store's lists |
| TagStoreProperties.AddedTagIsListed | Tagz.py:315-328 | after a non-blank add, the tag is among all tags |
| TagStoreProperties.LocalOnlyTag | Tagz.py:315-328 | for every store, file and tag: a tag in the file's local list that no global entry lists is among the file's tags but not in its global list, so `get_all_tags` does not report it |
| FileType.SplitExt | Beta/ver02/Tagz.py:159 | stem and extension concatenate to the name. The extension is empty, or it is a dot followed by no dot and no slash |
| FileType.SplitExtDecided | Beta/ver02/Tagz.py:159 | the extension is non-empty exactly when a dot follows a non-dot character in the last path component, and it then runs from the last dot to the end |
| FileType.ExtCategory | Beta/ver02/Tagz.py:161-192 | the category is Other exactly when the extension is in none of the eight sets |
| FileType.BetaFileTypeCaseInsensitive | Beta/ver02/Tagz.py:157-192 | the Beta classifier gives the same category for a name and its lowercase form |
| FileType.RootFileType | Tagz.py:66-79 | the top-level classifier only ever answers video, audio, document, image, ebook or other. It answers video exactly when the lowercased name ends with a video suffix, and other exactly when it ends with no suffix of the five groups |
| FileType.RootFileTypeCaseInsensitive | Tagz.py:66-79 | the top-level classifier gives the same category for a name and its lowercase form |
| FileType.RootRefinedByBeta | Tagz.py:66-79 | for a name with an extension, whenever the top-level classifier finds a category the Beta one finds the same |
| FileType.DotFileDiffers | Beta/ver02/Tagz.py:159 | ".mp4" is a video for the top-level classifier but other for Beta, because `splitext` sees no extension on a dot file |
| FileType.MpgDiffers | Tagz.py:69 | "clip.mpg" is a video for Beta but other for the top-level classifier, whose video group lacks ".mpg" |
| Duration.Components | Beta/ver02/Tagz.py:198-200 | minutes and seconds are below 60, and hours·3600 + minutes·60 + seconds is the input |
| Duration.FormatLength | Beta/ver02/Tagz.py:194-204 | the result is "-" exactly when the length is not positive |
| Duration.FormatLengthRoundTrip | Tagz.py:103-115 | for a positive length, parsing the text gives back the length. It has three fields from one hour on and two below. Every field is decimal digits, at least two of them, and the minutes and seconds fields are exactly two (`:02` padding) |
| Suggest.Tokenize | Beta/ver02/Tagz.py:315-322 | the nested loop yields the non-empty pieces of the name |
| Suggest.CascadeIsOneSplit | Beta/ver02/Tagz.py:318-322 | splitting on each separator in turn and dropping empty pieces equals one split on all of them |
| Suggest.TokensShape | Beta/ver02/Tagz.py:315-322 | every token is non-empty and holds no separator, and the tokens concatenate to the name with its separators deleted |
| Suggest.DateSubTags | Tagz.py:276-281 | an 8-character date match gives slices [0:4] and [4:8], a 10-character one gives [0:4] and [6:10], any other gives nothing |
| Suggest.DashedDateSubTags | Tagz.py:279-281 | for "2023-05-10" the second sub-tag is "5-10", not the day |
| Suggest.ExtensionTag | Beta/ver02/Tagz.py:313-314 | there is an extension tag exactly when the name has an extension |
| Suggest.GenerateSuggestedTags | Beta/ver02/Tagz.py:308-370 | the result is strictly sorted, so it has no duplicates. A string is in it exactly when it is a suggestion: the extension, a date match or its sub-tags, a year, a dimension, a resolution or a lowercased token longer than one character |
| Suggest.NameSuggestions | Beta/ver02/Tagz.py:366-369 | the lowercased extension without its dot, and every lowercased token longer than one character, are suggested. None of them contains a separator |
| Suggest.LastFolder | Beta/ver02/Tagz.py:1121 | the last folder is the suffix of the directory after its last slash: it holds no slash, and it is the whole directory or a slash comes right before it |
| Suggest.PathSegmentTags | Beta/ver02/Tagz.py:1115-1119 | the result is exactly the lowercased path segments other than "", "/" and "\\" |
| Suggest.DisplayedSuggestions | Beta/ver02/Tagz.py:1112-1126 | a displayed suggestion comes from the name or the directory and is not yet applied, and every such tag is displayed |
| Suggest.LastFolderExample | Tagz.py:1002 | with full-path mode off, "/Photos" suggests "photos" |
| Query.SearchFilesByTags | Beta/ver02/Tagz.py:386-397 | an empty tag list returns the input. Otherwise the result keeps exactly the records carrying every requested tag, in input order |
| Query.SearchCompose | Beta/ver02/Tagz.py:386-397 | searching for a and then for b equals one search for a followed by b |
| Query.Filtered | Tagz.py:818-835 | a record is kept exactly when its lowercased name contains the lowercased filter text and it carries every search tag. Input order is kept |
| Query.FilterByEmptyName | Beta/ver02/Tagz.py:969-980 | an empty filter text keeps every record |
| Query.SortRecords | Beta/ver02/Tagz.py:1007-1030 | the result is a permutation of the input, ordered by the column key, reversed when descending |
| Query.SortStable | Tagz.py:874-891 | records with equal keys keep their relative order, ascending and descending alike |
| Query.SortKeepsRecords | Beta/ver02/Tagz.py:1007-1030 | sorting neither adds nor loses a record |
| View.Browser.SortFiles | Beta/ver02/Tagz.py:1007-1030 | the shown list is replaced by its sorted form. When it is the same list as all files, those are sorted too. Nothing else changes |
| View.Browser.SortByColumn | Beta/ver02/Tagz.py:1032-1039 | the same column flips direction, a new column starts ascending, and then the list is sorted |
| View.Browser.Refresh | Beta/ver02/Tagz.py:886-908 | the shown list becomes the loaded records that carry every search tag, sorted. It is the same list as the loaded files exactly when no search tag is set |
| View.Browser.ApplyFilters | Beta/ver02/Tagz.py:969-980 | the shown list becomes the name- and tag-filtered files, sorted. It aliases the files exactly when both filters are empty |
| View.Browser.AddTagFilter | Beta/ver02/Tagz.py:1162-1169 | a new non-empty tag is appended to the search tags and the filters are reapplied. Otherwise nothing changes |
| View.Browser.RemoveTagFilter | Beta/ver02/Tagz.py:1191-1196 | a present tag loses its first occurrence, the others keeping their order, and the filters are reapplied: the shown list is the filtered files, sorted, and it is the files list itself exactly when the name filter and the remaining tags are empty. An absent tag changes nothing |
| View.Browser.ClearFilters | Beta/ver02/Tagz.py:1198-1203 | both filters are emptied and the shown list is all files, sorted |
| View.Browser.AddTagToSelected | Beta/ver02/Tagz.py:761-784 | a blank entry or an empty selection changes nothing. Otherwise the stripped tag is added to every selected file in the stores and appended to its loaded record without a duplicate check, and then the list is re-sorted |
| View.Browser.QuickAddTag | Beta/ver02/Tagz.py:1225-1244 | an empty selection changes nothing. Otherwise the button's tag, unstripped, is offered to the stores for every loaded record of each selected file (a blank tag is refused there), and a record that accepts it gains it only when it does not already list it; then the list is re-sorted |
| View.TagSelectionTags | Beta/ver02/Tagz.py:761-784 | after tagging a selection, every selected, loaded file has the tag in the stores, in all files and in the shown list |
| View.TagSelectionFrame | Beta/ver02/Tagz.py:761-784 | a file outside the selection keeps its stored tags and its records, in both the loaded and the shown list |
| View.TagSelectionSameStore | Beta/ver02/Tagz.py:1225-1244 | the two entry points write the same stores and keep the same paths. They differ only in the record lists |
| View.QuickAddKeepsNoDup | Beta/ver02/Tagz.py:1235-1239 | quick add keeps every record's tag list duplicate-free |
| View.AddToSelectedDuplicates | Beta/ver02/Tagz.py:776-779 | adding a tag a record already has through the entry box gives that record a duplicate |
| View.QuickAddPresent | Beta/ver02/Tagz.py:1235-1239 | quick add of a tag every record of the file already has leaves the records unchanged |
| View.FirstTag | Beta/ver02/Tagz.py:206-306 | the first tag added to an untagged file is then its only tag |
| Relocation.StripTagsEffect | Beta/ver02/Tagz.py:670-674 | removing a list of tags from a file leaves exactly its other tags and changes no other file |
| Relocation.ReapplyTagsEffect | Beta/ver02/Tagz.py:691-693 | re-adding a list gives the file every non-blank tag in it, and no file loses a tag |
| Relocation.MovePhaseStrips | Beta/ver02/Tagz.py:666-689 | on stores whose lists hold no duplicate tag, after the loop no source keeps a tag and no file gains one |
| Relocation.MovePhaseOk | Beta/ver02/Tagz.py:665-689 | the batch counts as successful exactly when every file moved and was found at its target |
| Relocation.MovePhaseFrame | Beta/ver02/Tagz.py:666-689 | a file outside the batch keeps its lists |
| Relocation.MovePhaseCaptures | Beta/ver02/Tagz.py:668-672 | each moved file's tags are recorded under its destination path |
| Relocation.MoveKeepsTags | Beta/ver02/Tagz.py:690-693 | when every move succeeds, each destination holds every non-blank tag its source had |
| Relocation.MoveSuccessFrame | Beta/ver02/Tagz.py:660-700 | when every move succeeds, a source whose old path is not a new path of the batch ends without tags, and a file that is neither a source nor a new path keeps its tags |
| Relocation.MoveFailureDropsTags | Beta/ver02/Tagz.py:684-698 | when any move fails, nothing is re-applied. Every source is left untagged and no file gains a tag |
| Relocation.MoveFiles | Beta/ver02/Tagz.py:660-700 | the new stores and the success flag are those of the move specification that the lemmas above describe |
| Relocation.RenameAsWritten | Beta/ver02/Tagz.py:722-759 | the rename is attempted only when the file has tags, and it succeeds only then. An untagged file leaves the stores unchanged |
| Relocation.UntaggedRenameFails | Beta/ver02/Tagz.py:729-735 | in every store, a file without tags is never renamed and the stores are untouched, whatever the file system would do, while the corrected rename succeeds for it |
| Relocation.Rename | Beta/ver02/Tagz.py:722-759 | with the new path bound unconditionally, the rename is always attempted and succeeds exactly when the file system does |
| Relocation.RenameAgrees | Beta/ver02/Tagz.py:729-750 | for a tagged file, the corrected rename behaves as written |
| Relocation.RenameMovesTags | Beta/ver02/Tagz.py:728-750 | on success the new name holds every non-blank old tag, and the old name holds none when it differs. Other files are untouched. On failure the file loses its tags and nothing gains any |
| Relocation.RenameFile | Beta/ver02/Tagz.py:722-750 | the new stores and result are those of the corrected rename |
| Recent.NewestFirst | Tagz.py:420-422 | the keys are listed in strictly descending order, each key once |
| Recent.SetOptionEffect | Tagz.py:417 | setting an option replaces the entry with that key or adds one, and keys stay distinct |
| Recent.RecentDirectories.Add | Tagz.py:405-427 | the section becomes the specified add, and the displayed list is its directories in order |
| Recent.RemoveDirectory | Tagz.py:411-413 | the loop removes exactly the entries whose value is the directory |
| Recent.TrimOldest | Tagz.py:420-424 | the loop removes exactly the keys beyond the ten newest |
| Recent.AddBounded | Beta/ver02/Tagz.py:449-464 | after an add the section holds ten entries, or all of them if there are fewer |
| Recent.AddKeepsNewest | Tagz.py:419-424 | every kept key is later than every trimmed one |
| Recent.AddListsNewestLast | Tagz.py:415-417 | when the new timestamp is the latest, its entry is the last one listed |
| Recent.AddKeepsDirsDistinct | Tagz.py:410-417 | no two entries name the same directory, and keys stay distinct |
| Recent.SameSecondOverwrites | Tagz.py:416-417 | a second add within the same second overwrites the first directory, which is then no longer listed |

## Left out

- The Tkinter user interface is not modelled: widgets, dialogs, message boxes, tree-view selection and
  the popular/current tag panels. Selections are input lists of paths.
- Media duration probing, previews and playback are foreign calls and are not modelled. Media length is
  an input integer.
- The import-time installation of packages is not modelled.
- File sizes are abstract integers, so `humanize.naturalsize` is left out. Modification times are
  abstract integers, so `datetime` formatting is left out.
- The clock is the `timestamp` parameter of `Recent.RecentDirectories.Add`.
- The `re.findall` match lists for dates, years, dimensions and resolutions are inputs (`Suggest.Matches`).
  The regular-expression engine is not modelled.
- Real file-system calls and JSON text encoding are abstract.
  - A store file is `Missing`, `Corrupt` or a map.
  - A move or rename outcome is `Done`, `NotAtTarget` or `Raised`.
  - A missing local store is written as a new file on add, like the source.
- Lowercasing is modelled for ASCII only; Python's full Unicode case mapping is not modelled. `strip`
  uses the whole set of characters that Python's `str.isspace` accepts.
- Paths are (directory, base name) pairs. `os.path.join`, `normpath` and `dirname` are not modelled, so
  a new name containing a slash, or an absolute new name, is outside the model. In full-path mode the
  directory is split on "/" without `normpath`.
- Suggest.DisplayedSuggestions: the result is a set. The order in which `list(set(...))` shows the
  suggestions is unspecified in Python and is not modelled.
- The configuration file's text format, interpolation and DEFAULT section are not modelled. Nor is the
  separate `get_recent_directories` read. The section is an ordered list of options.
- Recent.RecentDirectories.Add accepts every directory. configparser's default interpolation makes
  `set` raise `ValueError` for a value with a stray '%'. That happens after the directory's old entries
  were removed, so such a directory drops off the list. The model does not capture this.
- `remove_tag_from_selected`, the tag-entry panel's `add_tag` and `remove_tag`, `list_files`, and the
  record construction in `load_global_files` are outside the modelled core. So are directory browsing
  and the popular-tag count.
- View.Browser.Refresh: Beta's `refresh_file_list` applies only the tag search, not the name
  filter. The model follows the code.
- In the global view, records take their tags from the global store only, not from the merged lookup
  (Beta/ver02/Tagz.py:948, Tagz.py:1552). That construction is not modelled. The view's records
  are inputs.
- Recent.RecentDirectories.Add: the source comments "Add to beginning", but `config.set` appends a new
  option at the end, so the list is oldest first. The model follows the code.
- Recent.TrimOldest removes the trimmed keys in descending key order, like the source. The final
  section does not depend on that order.
- Relocation.MoveFiles: after the batch, the source refreshes the file list and the popular tags. That
  is display work and is left out. Two sources with the same base name collide in the source's
  dictionary, so `Relocation.MoveKeepsTags` requires distinct base names.

## Findings

| source | as written | input that shows it | evidently intended | confidence | as-written member | corrected member |
|---|---|---|---|---|---|---|
| Beta/ver02/Tagz.py:729-735 | `new_file_path` is bound only inside `if original_tags:`. For an untagged file `os.rename(file_path, new_file_path)` raises `UnboundLocalError`, which the handler catches as a failed rename, so the file is never renamed | any untagged file, with a new name the file system would accept | bind the new path before the tag check, so untagged files rename like tagged ones | not executed | Relocation.RenameAsWritten, Relocation.UntaggedRenameFails | Relocation.Rename, Relocation.RenameFile |
