/** The browser's view state: the loaded records, the filtered and sorted
    list the tree shows, the active filters and the sort column, and the
    two commands that tag the selected records. */
module View {
  import opened Text
  import opened TagStore
  import opened Query
  import opened TagStoreProperties

  /** Some record of `records` is the file `p`. */
  predicate HasPath(records: seq<FileRecord>, p: Path) {
    exists k :: 0 <= k < |records| && records[k].path == p
  }

  /** `file["tags"].append(tag)`, or with `dedupe` only `if tag not in file["tags"]`. */
  function AddToRecord(f: FileRecord, tag: Tag, dedupe: bool): FileRecord {
    if dedupe && tag in f.tags then f else f.(tags := f.tags + [tag])
  }

  /** Every record of file `p` with the tag appended; the others as they are. */
  function RetagPath(records: seq<FileRecord>, p: Path, tag: Tag, dedupe: bool): seq<FileRecord> {
    seq(|records|, k requires 0 <= k < |records| =>
      if records[k].path == p then AddToRecord(records[k], tag, dedupe) else records[k])
  }

  /** The parts of the state that tagging a selection changes. */
  datatype Snapshot = Snapshot(stores: Stores, files: seq<FileRecord>, filtered: seq<FileRecord>)

  /** Tagging one selected item: the store is asked once per record of that
      file and accepts any non-blank tag; the records (shared between the
      loaded and the filtered list) then carry it. */
  function TagItem(v: Snapshot, p: Path, tag: Tag, dedupe: bool): Snapshot {
    if !AllSpace(tag) && HasPath(v.files, p) then
      Snapshot(AddTagSpec(v.stores, p, tag).0, RetagPath(v.files, p, tag, dedupe), RetagPath(v.filtered, p, tag, dedupe))
    else v
  }

  /** Tagging the items of the selection one after the other. */
  function TagSelection(v: Snapshot, selection: seq<Path>, tag: Tag, dedupe: bool): Snapshot {
    if selection == [] then v
    else TagItem(TagSelection(v, selection[..|selection| - 1], tag, dedupe), selection[|selection| - 1], tag, dedupe)
  }

  lemma RetagKeepsPaths(records: seq<FileRecord>, p: Path, tag: Tag, dedupe: bool)
    ensures forall q :: HasPath(RetagPath(records, p, tag, dedupe), q) <==> HasPath(records, q)
  {
    var r := RetagPath(records, p, tag, dedupe);
    forall q ensures HasPath(r, q) <==> HasPath(records, q) {
      if HasPath(r, q) {
        var k :| 0 <= k < |r| && r[k].path == q;
        assert records[k].path == q;
      }
      if HasPath(records, q) {
        var k :| 0 <= k < |records| && records[k].path == q;
        assert r[k].path == q;
      }
    }
  }

  /** After tagging, every selected file the view holds lists the tag in the
      store, and so does every record of it, in both lists. */
  lemma {:induction false} TagSelectionTags(v: Snapshot, selection: seq<Path>, tag: Tag, dedupe: bool, p: Path)
    requires !AllSpace(tag) && p in selection && HasPath(v.files, p)
    ensures var w := TagSelection(v, selection, tag, dedupe);
      && tag in TagsForSpec(w.stores, p)
      && (forall f :: f in w.files && f.path == p ==> tag in f.tags)
      && (forall f :: f in w.filtered && f.path == p ==> tag in f.tags)
  {
    var init := selection[..|selection| - 1];
    var last := selection[|selection| - 1];
    var u := TagSelection(v, init, tag, dedupe);
    TagSelectionKeepsPaths(v, init, tag, dedupe);
    if last == p {
      AddTagEffect(u.stores, p, tag);
      RetagAdds(u.files, p, tag, dedupe);
      RetagAdds(u.filtered, p, tag, dedupe);
    } else {
      assert p in init;
      TagSelectionTags(v, init, tag, dedupe, p);
      if HasPath(u.files, last) {
        AddTagKeeps(u.stores, last, tag, p, tag);
        RetagKeeps(u.files, last, tag, dedupe, p);
        RetagKeeps(u.filtered, last, tag, dedupe, p);
      }
    }
  }

  lemma {:induction false} TagSelectionKeepsPaths(v: Snapshot, selection: seq<Path>, tag: Tag, dedupe: bool)
    ensures forall q :: HasPath(TagSelection(v, selection, tag, dedupe).files, q) <==> HasPath(v.files, q)
  {
    if selection != [] {
      var init := selection[..|selection| - 1];
      TagSelectionKeepsPaths(v, init, tag, dedupe);
      var u := TagSelection(v, init, tag, dedupe);
      RetagKeepsPaths(u.files, selection[|selection| - 1], tag, dedupe);
    }
  }

  lemma RetagAdds(records: seq<FileRecord>, p: Path, tag: Tag, dedupe: bool)
    ensures forall f :: f in RetagPath(records, p, tag, dedupe) && f.path == p ==> tag in f.tags
  {
    var r := RetagPath(records, p, tag, dedupe);
    forall f | f in r && f.path == p ensures tag in f.tags {
      var k :| 0 <= k < |r| && r[k] == f;
      assert records[k].path == p;
    }
  }

  lemma RetagKeeps(records: seq<FileRecord>, q: Path, tag: Tag, dedupe: bool, p: Path)
    requires forall f :: f in records && f.path == p ==> tag in f.tags
    ensures forall f :: f in RetagPath(records, q, tag, dedupe) && f.path == p ==> tag in f.tags
  {
    var r := RetagPath(records, q, tag, dedupe);
    forall f | f in r && f.path == p ensures tag in f.tags {
      var k :| 0 <= k < |r| && r[k] == f;
      assert records[k].path == p && records[k] in records;
    }
  }

  /** Files outside the selection keep their tags, in the store and on
      their records, both loaded and shown. */
  lemma {:induction false} TagSelectionFrame(v: Snapshot, selection: seq<Path>, tag: Tag, dedupe: bool, q: Path)
    requires q !in selection
    ensures var w := TagSelection(v, selection, tag, dedupe);
      && TagsForSpec(w.stores, q) == TagsForSpec(v.stores, q)
      && |w.files| == |v.files|
      && (forall k :: 0 <= k < |v.files| && v.files[k].path == q ==> w.files[k] == v.files[k])
      && |w.filtered| == |v.filtered|
      && (forall k :: 0 <= k < |v.filtered| && v.filtered[k].path == q ==> w.filtered[k] == v.filtered[k])
  {
    if selection != [] {
      var init := selection[..|selection| - 1];
      var last := selection[|selection| - 1];
      assert q !in init && q != last;
      TagSelectionFrame(v, init, tag, dedupe, q);
      var u := TagSelection(v, init, tag, dedupe);
      AddTagFrame(u.stores, last, tag, q);
      RetagFrame(u.files, last, tag, dedupe);
      RetagFrame(u.filtered, last, tag, dedupe);
    }
  }

  lemma RetagFrame(records: seq<FileRecord>, p: Path, tag: Tag, dedupe: bool)
    ensures |RetagPath(records, p, tag, dedupe)| == |records|
    ensures forall k :: 0 <= k < |records| ==> RetagPath(records, p, tag, dedupe)[k].path == records[k].path
    ensures forall k :: 0 <= k < |records| && records[k].path != p ==> RetagPath(records, p, tag, dedupe)[k] == records[k]
  {
  }

  /** The store ends the same whether or not the records are deduplicated. */
  lemma {:induction false} TagSelectionSameStore(v: Snapshot, selection: seq<Path>, tag: Tag)
    ensures TagSelection(v, selection, tag, true).stores == TagSelection(v, selection, tag, false).stores
    ensures forall q :: HasPath(TagSelection(v, selection, tag, true).files, q) <==> HasPath(TagSelection(v, selection, tag, false).files, q)
  {
    TagSelectionKeepsPaths(v, selection, tag, true);
    TagSelectionKeepsPaths(v, selection, tag, false);
    if selection != [] {
      TagSelectionSameStore(v, selection[..|selection| - 1], tag);
    }
  }

  /** Every record lists each of its tags once. */
  predicate RecordsNoDup(records: seq<FileRecord>) {
    forall f :: f in records ==> NoDup(f.tags)
  }

  /** `quick_add_tag` appends only absent tags, so records stay free of
      duplicates. */
  lemma {:induction false} QuickAddKeepsNoDup(v: Snapshot, selection: seq<Path>, tag: Tag)
    requires RecordsNoDup(v.files) && RecordsNoDup(v.filtered)
    ensures RecordsNoDup(TagSelection(v, selection, tag, true).files)
    ensures RecordsNoDup(TagSelection(v, selection, tag, true).filtered)
  {
    if selection != [] {
      var init := selection[..|selection| - 1];
      QuickAddKeepsNoDup(v, init, tag);
      var u := TagSelection(v, init, tag, true);
      RetagNoDup(u.files, selection[|selection| - 1], tag);
      RetagNoDup(u.filtered, selection[|selection| - 1], tag);
    }
  }

  lemma RetagNoDup(records: seq<FileRecord>, p: Path, tag: Tag)
    requires RecordsNoDup(records)
    ensures RecordsNoDup(RetagPath(records, p, tag, true))
  {
    var r := RetagPath(records, p, tag, true);
    forall f | f in r ensures NoDup(f.tags) {
      var k :| 0 <= k < |r| && r[k] == f;
      assert records[k] in records;
      if records[k].path == p && tag !in records[k].tags {
        assert NoDup(AppendNew(records[k].tags, tag));
        assert AppendNew(records[k].tags, tag) == records[k].tags + [tag];
      }
    }
  }

  /** Merging in tags the first list already holds adds nothing. */
  lemma MergeCovered(g: seq<Tag>, l: seq<Tag>)
    requires forall t :: t in l ==> t in g
    ensures MergeTags(g, l) == g
  {
    var r := MergeTags(g, l);
    assert |r| == |g|;
  }

  /** A file with no tags in either store gets exactly the added one. */
  lemma FirstTag(s: Stores, p: Path, tag: Tag)
    requires !AllSpace(tag) && GlobalTags(s, p) == [] && LocalTags(s, p) == []
    ensures TagsForSpec(AddTagSpec(s, p, tag).0, p) == [tag]
  {
    AddTagEffect(s, p, tag);
    var s' := AddTagSpec(s, p, tag).0;
    assert GlobalTags(s', p) == [tag] && LocalTags(s', p) == [tag];
    MergeCovered([tag], [tag]);
  }

  lemma TagSelectionOne(v: Snapshot, p: Path, tag: Tag, dedupe: bool)
    ensures TagSelection(v, [p], tag, dedupe) == TagItem(v, p, tag, dedupe)
  {
    assert [p][..0] == [];
  }

  /** `add_tag_to_selected` does not check the record first: a record that
      already carries the tag lists it twice afterwards. */
  lemma AddToSelectedDuplicates(v: Snapshot, p: Path, tag: Tag)
    requires !AllSpace(tag)
    requires forall f :: f in v.files && f.path == p ==> tag in f.tags
    ensures forall f :: f in TagSelection(v, [p], tag, false).files && f.path == p ==> !NoDup(f.tags)
  {
    TagSelectionOne(v, p, tag, false);
    var w := TagSelection(v, [p], tag, false);
    RetagFrame(v.files, p, tag, false);
    forall f | f in w.files && f.path == p ensures !NoDup(f.tags) {
      var k :| 0 <= k < |w.files| && w.files[k] == f;
      assert HasPath(v.files, p) by {
        assert v.files[k].path == p;
      }
      var before := v.files[k];
      assert before.path == p && before in v.files;
      var i :| 0 <= i < |before.tags| && before.tags[i] == tag;
      assert f.tags == before.tags + [tag];
      assert f.tags[i] == f.tags[|before.tags|];
    }
  }

  /** `quick_add_tag` leaves a record that already carries the tag as it was. */
  lemma QuickAddPresent(v: Snapshot, p: Path, tag: Tag)
    requires forall f :: f in v.files && f.path == p ==> tag in f.tags
    ensures TagSelection(v, [p], tag, true).files == v.files
  {
    TagSelectionOne(v, p, tag, true);
    var u := TagSelection(v, [p], tag, true);
    if !AllSpace(tag) && HasPath(v.files, p) {
      RetagFrame(v.files, p, tag, true);
      forall k | 0 <= k < |v.files| ensures u.files[k] == v.files[k] {
        assert v.files[k] in v.files;
      }
    }
  }

  /** Retagging the loaded list and a list of some of its records alike
      keeps the second made of records of the first. */
  lemma RetagShared(files: seq<FileRecord>, shown: seq<FileRecord>, p: Path, tag: Tag, dedupe: bool)
    requires forall f :: f in shown ==> f in files
    ensures forall f :: f in RetagPath(shown, p, tag, dedupe) ==> f in RetagPath(files, p, tag, dedupe)
  {
    var r := RetagPath(shown, p, tag, dedupe);
    var t := RetagPath(files, p, tag, dedupe);
    forall f | f in r ensures f in t {
      var k :| 0 <= k < |r| && r[k] == f;
      assert shown[k] in files;
      var m :| 0 <= m < |files| && files[m] == shown[k];
      assert t[m] == f;
    }
  }

  /** `for file in self.files: if file["path"] == p: ...`: every record of
      file `p` is offered to the store and, when the store accepts the tag,
      carries it. */
  method TagRecords(db: TagDatabase, loaded: seq<FileRecord>, p: Path, tag: Tag, dedupe: bool)
    returns (records: seq<FileRecord>, accepted: bool)
    modifies db
    ensures accepted <==> !AllSpace(tag) && HasPath(loaded, p)
    ensures db.State() == if accepted then AddTagSpec(old(db.State()), p, tag).0 else old(db.State())
    ensures records == if accepted then RetagPath(loaded, p, tag, dedupe) else loaded
  {
    ghost var stores0 := db.State();
    ghost var ok := !AllSpace(tag);
    records := loaded;
    accepted := false;
    var j := 0;
    while j < |records|
      invariant 0 <= j <= |records| == |loaded|
      invariant accepted <==> ok && exists k :: 0 <= k < j && loaded[k].path == p
      invariant db.State() == if accepted then AddTagSpec(stores0, p, tag).0 else stores0
      invariant forall k :: 0 <= k < j ==>
        records[k] == (if ok && loaded[k].path == p then AddToRecord(loaded[k], tag, dedupe) else loaded[k])
      invariant forall k :: j <= k < |records| ==> records[k] == loaded[k]
    {
      assert records[j] == loaded[j];
      var record, added := OfferRecord(db, records[j], p, tag, dedupe);
      if added {
        assert loaded[j].path == p;
        if accepted {
          AddTagIdempotent(stores0, p, tag);
        }
      }
      records := records[j := record];
      accepted := accepted || added;
      j := j + 1;
    }
  }

  /** One pass of that loop: a record of file `p` is offered to the store. */
  method OfferRecord(db: TagDatabase, record: FileRecord, p: Path, tag: Tag, dedupe: bool)
    returns (r: FileRecord, added: bool)
    modifies db
    ensures added <==> record.path == p && !AllSpace(tag)
    ensures r == if added then AddToRecord(record, tag, dedupe) else record
    ensures db.State() == if added then AddTagSpec(old(db.State()), p, tag).0 else old(db.State())
  {
    r, added := record, false;
    if record.path == p {
      AddTagEffect(db.State(), p, tag);
      added := db.AddTag(p, tag);
      if added {
        r := AddToRecord(record, tag, dedupe);
      }
    }
  }

  class Browser {
    /** The tag store the commands write through. */
    const db: TagDatabase
    /** `self.files`: the records of the current directory or global view. */
    var files: seq<FileRecord>
    /** `self.filtered_files`: what the tree shows, in display order. */
    var filtered: seq<FileRecord>
    /** `filtered_files` is the very list object `files`, so sorting one
        reorders the other. */
    var aliased: bool
    /** The name filter entry's text. */
    var filterText: string
    /** `self.search_tags`. */
    var searchTags: seq<Tag>
    var sortColumn: Column
    var sortAscending: bool

    ghost predicate Valid()
      reads this
    {
      && (aliased ==> filtered == files)
      && (forall f :: f in filtered ==> f in files)
    }

    ghost function View(): Snapshot
      reads this, db
    {
      Snapshot(db.State(), files, filtered)
    }

    constructor (database: TagDatabase)
      ensures Valid() && db == database
      ensures files == [] && filtered == [] && !aliased
      ensures filterText == [] && searchTags == []
      ensures sortColumn == Name && sortAscending
    {
      db := database;
      files := [];
      filtered := [];
      aliased := false;
      filterText := [];
      searchTags := [];
      sortColumn := Name;
      sortAscending := true;
    }

    /** `sort_files`: sorts the shown list in place by the current column. */
    method SortFiles()
      requires Valid()
      modifies this
      ensures Valid()
      ensures filtered == SortRecords(old(filtered), sortColumn, sortAscending)
      ensures files == if aliased then filtered else old(files)
      ensures aliased == old(aliased) && filterText == old(filterText) && searchTags == old(searchTags)
      ensures sortColumn == old(sortColumn) && sortAscending == old(sortAscending)
    {
      SortKeepsRecords(filtered, sortColumn, sortAscending);
      filtered := SortRecords(filtered, sortColumn, sortAscending);
      if aliased {
        files := filtered;
      }
    }

    /** `sort_by_column`: the same column flips the direction, another one
        sorts ascending by it; then the tree is redrawn (and sorted). */
    method SortByColumn(column: Column)
      requires Valid()
      modifies this
      ensures Valid()
      ensures sortColumn == column
      ensures sortAscending == (if old(sortColumn) == column then !old(sortAscending) else true)
      ensures filtered == SortRecords(old(filtered), sortColumn, sortAscending)
      ensures files == if aliased then filtered else old(files)
      ensures aliased == old(aliased) && filterText == old(filterText) && searchTags == old(searchTags)
    {
      if sortColumn == column {
        sortAscending := !sortAscending;
      } else {
        sortColumn := column;
        sortAscending := true;
      }
      SortFiles();
    }

    /** `refresh_file_list` with `records` as what the directory listing or
        the global view produced: the tag search applies, the name filter
        does not. */
    method Refresh(records: seq<FileRecord>)
      requires Valid()
      modifies this
      ensures Valid()
      ensures filtered == SortRecords(SearchFilesByTags(records, searchTags), sortColumn, sortAscending)
      ensures aliased <==> searchTags == []
      ensures files == if aliased then filtered else records
      ensures filterText == old(filterText) && searchTags == old(searchTags)
      ensures sortColumn == old(sortColumn) && sortAscending == old(sortAscending)
    {
      files := records;
      filtered := SearchFilesByTags(records, searchTags);
      aliased := searchTags == [];
      SortFiles();
    }

    /** `apply_filters` with the entry holding `text`; the result is a new
        list unless neither filter is active, in which case it is `files`. */
    method ApplyFilters(text: string)
      requires Valid()
      modifies this
      ensures Valid()
      ensures filterText == text
      ensures filtered == SortRecords(Filtered(old(files), text, searchTags), sortColumn, sortAscending)
      ensures aliased <==> Lower(text) == [] && searchTags == []
      ensures files == if aliased then filtered else old(files)
      ensures searchTags == old(searchTags)
      ensures sortColumn == old(sortColumn) && sortAscending == old(sortAscending)
    {
      filterText := text;
      var lowered := Lower(text);
      filtered := files;
      aliased := true;
      if lowered != [] {
        filtered := FilterByName(filtered, lowered);
        aliased := false;
      }
      if searchTags != [] {
        filtered := SearchFilesByTags(filtered, searchTags);
        aliased := false;
      }
      SortFiles();
    }

    /** `add_tag_filter` with the combobox holding `tag`. */
    method AddTagFilter(tag: Tag)
      requires Valid()
      modifies this
      ensures Valid()
      ensures searchTags == if tag != [] && tag !in old(searchTags) then old(searchTags) + [tag] else old(searchTags)
      ensures tag != [] && tag !in old(searchTags) ==>
        && filtered == SortRecords(Filtered(old(files), filterText, searchTags), sortColumn, sortAscending)
        && !aliased
        && files == old(files)
      ensures !(tag != [] && tag !in old(searchTags)) ==>
        files == old(files) && filtered == old(filtered) && aliased == old(aliased)
      ensures filterText == old(filterText)
      ensures sortColumn == old(sortColumn) && sortAscending == old(sortAscending)
    {
      if tag != [] && tag !in searchTags {
        searchTags := searchTags + [tag];
        ApplyFilters(filterText);
      }
    }

    /** `remove_tag_filter`: drops the first occurrence of a listed tag. */
    method RemoveTagFilter(tag: Tag)
      requires Valid()
      modifies this
      ensures Valid()
      ensures tag in old(searchTags) ==>
        && searchTags == RemoveFirst(old(searchTags), tag)
        && multiset(searchTags) == multiset(old(searchTags)) - multiset{tag}
        && filtered == SortRecords(Filtered(old(files), filterText, searchTags), sortColumn, sortAscending)
        && (aliased <==> Lower(filterText) == [] && searchTags == [])
        && files == (if aliased then filtered else old(files))
      ensures tag !in old(searchTags) ==>
        searchTags == old(searchTags) && files == old(files) && filtered == old(filtered) && aliased == old(aliased)
      ensures filterText == old(filterText)
      ensures sortColumn == old(sortColumn) && sortAscending == old(sortAscending)
    {
      if tag in searchTags {
        searchTags := RemoveFirst(searchTags, tag);
        ApplyFilters(filterText);
      }
    }

    /** `clear_filters`: no tags, an empty entry, and the full list shown. */
    method ClearFilters()
      requires Valid()
      modifies this
      ensures Valid()
      ensures searchTags == [] && filterText == [] && aliased
      ensures filtered == files && files == SortRecords(old(files), sortColumn, sortAscending)
      ensures sortColumn == old(sortColumn) && sortAscending == old(sortAscending)
    {
      searchTags := [];
      ApplyFilters([]);
      FilterByEmptyName(old(files));
    }

    /** The inner loop of both tagging commands, on the loaded records. */
    method TagLoaded(p: Path, tag: Tag, dedupe: bool) returns (accepted: bool)
      modifies this, db
      ensures accepted <==> !AllSpace(tag) && HasPath(old(files), p)
      ensures db.State() == if accepted then AddTagSpec(old(db.State()), p, tag).0 else old(db.State())
      ensures files == if accepted then RetagPath(old(files), p, tag, dedupe) else old(files)
      ensures filtered == old(filtered) && aliased == old(aliased)
      ensures filterText == old(filterText) && searchTags == old(searchTags)
      ensures sortColumn == old(sortColumn) && sortAscending == old(sortAscending)
    {
      var records;
      records, accepted := TagRecords(db, files, p, tag, dedupe);
      files := records;
    }

    /** One selected item: the loaded records change through `TagLoaded`, and
        the shown list holds the same record objects, so they change too. */
    method TagItemInPlace(p: Path, tag: Tag, dedupe: bool)
      requires Valid()
      modifies this, db
      ensures Valid()
      ensures View() == TagItem(old(View()), p, tag, dedupe)
      ensures aliased == old(aliased) && filterText == old(filterText) && searchTags == old(searchTags)
      ensures sortColumn == old(sortColumn) && sortAscending == old(sortAscending)
    {
      var accepted := TagLoaded(p, tag, dedupe);
      if accepted {
        RetagShared(old(files), filtered, p, tag, dedupe);
        filtered := RetagPath(filtered, p, tag, dedupe);
      }
    }

    /** `add_tag_to_selected` with the tag entry holding `entry` and the
        tree's selection naming `selection`: the stripped tag goes on every
        selected file without looking at the record first. */
    method AddTagToSelected(entry: string, selection: seq<Path>)
      requires Valid()
      modifies this, db
      ensures Valid()
      ensures Strip(entry) == [] || selection == [] ==> View() == old(View())
      ensures Strip(entry) != [] && selection != [] ==>
        var w := TagSelection(old(View()), selection, Strip(entry), false);
        && db.State() == w.stores
        && filtered == SortRecords(w.filtered, sortColumn, sortAscending)
        && files == (if aliased then filtered else w.files)
      ensures aliased == old(aliased) && filterText == old(filterText) && searchTags == old(searchTags)
      ensures sortColumn == old(sortColumn) && sortAscending == old(sortAscending)
    {
      var tag := Strip(entry);
      if tag == [] || selection == [] {
        return;
      }
      TagEach(selection, tag, false);
      SortFiles();
    }

    /** `quick_add_tag` with a suggested or popular `tag`: not stripped, and
        appended to a record only when the record lacks it. */
    method QuickAddTag(tag: Tag, selection: seq<Path>)
      requires Valid()
      modifies this, db
      ensures Valid()
      ensures selection == [] ==> View() == old(View())
      ensures selection != [] ==>
        var w := TagSelection(old(View()), selection, tag, true);
        && db.State() == w.stores
        && filtered == SortRecords(w.filtered, sortColumn, sortAscending)
        && files == (if aliased then filtered else w.files)
      ensures aliased == old(aliased) && filterText == old(filterText) && searchTags == old(searchTags)
      ensures sortColumn == old(sortColumn) && sortAscending == old(sortAscending)
    {
      if selection == [] {
        return;
      }
      TagEach(selection, tag, true);
      SortFiles();
    }

    /** The outer loop of both tagging commands, over the selected items. */
    method TagEach(selection: seq<Path>, tag: Tag, dedupe: bool)
      requires Valid()
      modifies this, db
      ensures Valid()
      ensures View() == TagSelection(old(View()), selection, tag, dedupe)
      ensures aliased == old(aliased) && filterText == old(filterText) && searchTags == old(searchTags)
      ensures sortColumn == old(sortColumn) && sortAscending == old(sortAscending)
    {
      for i := 0 to |selection|
        invariant Valid()
        invariant View() == TagSelection(old(View()), selection[..i], tag, dedupe)
        invariant aliased == old(aliased) && filterText == old(filterText) && searchTags == old(searchTags)
        invariant sortColumn == old(sortColumn) && sortAscending == old(sortAscending)
      {
        TagItemInPlace(selection[i], tag, dedupe);
        assert selection[..i + 1][..i] == selection[..i];
      }
      assert selection[..|selection|] == selection;
    }
  }
}
