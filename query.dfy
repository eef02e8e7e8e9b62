/** The query engine of the file browser: the tag search, the name filter,
    the per-column stable sort and the state that drives them. */
module Query {
  import opened Text
  import opened TagStore

  /** One row of the browser: the dictionary `list_files` builds per file
      (`type` is the category name `get_file_type` returned, `length` the
      media duration in seconds, `modified` the modification time). */
  datatype FileRecord = FileRecord(
    name: string,
    basename: string,
    path: Path,
    ext: string,
    size: nat,
    category: string,
    length: int,
    modified: int,
    tags: seq<Tag>)

  /** `all(tag in set(file["tags"]) for tag in tags)`. */
  predicate HasAllTags(f: FileRecord, tags: seq<Tag>) {
    forall t :: t in tags ==> t in f.tags
  }

  /** `a` is `b` with some elements left out, the rest in order. */
  predicate Subsequence<T(==)>(a: seq<T>, b: seq<T>) {
    if a == [] then true
    else if b == [] then false
    else (a[0] == b[0] && Subsequence(a[1..], b[1..])) || Subsequence(a, b[1..])
  }

  lemma {:induction false} SubsequenceRefl<T>(a: seq<T>)
    ensures Subsequence(a, a)
  {
    if a != [] {
      SubsequenceRefl(a[1..]);
    }
  }

  /** `search_files_by_tags(files, tags)`. */
  function SearchFilesByTags(files: seq<FileRecord>, tags: seq<Tag>): (r: seq<FileRecord>)
    ensures tags == [] ==> r == files
    ensures forall f :: f in r <==> f in files && HasAllTags(f, tags)
    ensures Subsequence(r, files)
  {
    if tags == [] then SubsequenceRefl(files); files
    else if files == [] then []
    else
      var rest := SearchFilesByTags(files[1..], tags);
      assert forall f :: f in files <==> f == files[0] || f in files[1..];
      if HasAllTags(files[0], tags) then [files[0]] + rest
      else rest
  }

  /** Searching on `a` and then on `b` is one search on both. */
  lemma {:induction false} SearchCompose(files: seq<FileRecord>, a: seq<Tag>, b: seq<Tag>)
    ensures SearchFilesByTags(SearchFilesByTags(files, a), b) == SearchFilesByTags(files, a + b)
  {
    if a == [] {
      assert a + b == b;
    } else if b == [] {
      assert a + b == a;
    } else if files != [] {
      SearchCompose(files[1..], a, b);
      var f := files[0];
      assert HasAllTags(f, a + b) <==> HasAllTags(f, a) && HasAllTags(f, b);
      if HasAllTags(f, a) {
        var s := SearchFilesByTags(files, a);
        assert s[0] == f && s[1..] == SearchFilesByTags(files[1..], a);
      }
    }
  }

  /** The name filter of `apply_filters`: keeps the records whose
      lowercased name contains `text` (already lowercased), in order. */
  function FilterByName(files: seq<FileRecord>, text: string): (r: seq<FileRecord>)
    ensures forall f :: f in r <==> f in files && Contains(Lower(f.name), text)
    ensures Subsequence(r, files)
  {
    if files == [] then []
    else
      var rest := FilterByName(files[1..], text);
      assert forall f :: f in files <==> f == files[0] || f in files[1..];
      if Contains(Lower(files[0].name), text) then [files[0]] + rest
      else rest
  }

  lemma ContainsEmpty(hay: string)
    ensures Contains(hay, [])
  {
  }

  /** An empty filter text keeps every record. */
  lemma {:induction false} FilterByEmptyName(files: seq<FileRecord>)
    ensures FilterByName(files, []) == files
  {
    if files != [] {
      FilterByEmptyName(files[1..]);
      ContainsEmpty(Lower(files[0].name));
    }
  }

  /** What `apply_filters` selects: the name filter when its text is
      non-empty, then the tag search when tags are set. */
  function Filtered(files: seq<FileRecord>, filterText: string, searchTags: seq<Tag>): (r: seq<FileRecord>)
    ensures forall f :: f in r <==>
      f in files && Contains(Lower(f.name), Lower(filterText)) && HasAllTags(f, searchTags)
    ensures Subsequence(r, files)
  {
    var text := Lower(filterText);
    var byName := if text != [] then FilterByName(files, text) else files;
    FilterByEmptyName(files);
    assert byName == FilterByName(files, text);
    var r := if searchTags != [] then SearchFilesByTags(byName, searchTags) else byName;
    SubsequenceRefl(byName);
    SubsequenceTrans(r, byName, files);
    r
  }

  lemma {:induction false} SubsequenceTrans<T>(a: seq<T>, b: seq<T>, c: seq<T>)
    requires Subsequence(a, b) && Subsequence(b, c)
    ensures Subsequence(a, c)
    decreases |c|
  {
    if a != [] && b != [] {
      if Subsequence(b, c[1..]) {
        SubsequenceTrans(a, b, c[1..]);
      } else if a[0] == b[0] && Subsequence(a[1..], b[1..]) {
        SubsequenceTrans(a[1..], b[1..], c[1..]);
      } else {
        SubsequenceTrans(a, b[1..], c[1..]);
      }
    }
  }

  /** The columns of the file tree. */
  datatype Column = Name | Ext | Type | Size | Length | Modified | Tags

  /** A sort key: text compared by code point, or a number. */
  datatype SortKey = Text(s: string) | Number(n: int)

  /** The key `sort_files` sorts a column by. */
  function KeyOf(f: FileRecord, c: Column): SortKey {
    match c
    case Name => Text(Lower(f.basename))
    case Ext => Text(Lower(f.ext))
    case Type => Text(f.category)
    case Size => Number(f.size)
    case Length => Number(f.length)
    case Modified => Number(f.modified)
    case Tags => Number(|f.tags|)
  }

  predicate KeyLess(a: SortKey, b: SortKey) {
    match (a, b)
    case (Text(x), Text(y)) => Less(x, y)
    case (Number(x), Number(y)) => x < y
    case _ => false
  }

  lemma KeyLessIrreflexive(a: SortKey)
    ensures !KeyLess(a, a)
  {
    if a.Text? {
      LessIrreflexive(a.s);
    }
  }

  lemma KeyLessTransitive(a: SortKey, b: SortKey, c: SortKey)
    requires KeyLess(a, b) && KeyLess(b, c)
    ensures KeyLess(a, c)
  {
    if a.Text? {
      LessTransitive(a.s, b.s, c.s);
    }
  }

  /** `x` goes strictly before `y` in the requested direction. A descending
      sort with `reverse=True` keeps equal keys in their original order, so
      it is the stable sort by the reversed comparison. */
  predicate Before(x: FileRecord, y: FileRecord, c: Column, ascending: bool) {
    if ascending then KeyLess(KeyOf(x, c), KeyOf(y, c)) else KeyLess(KeyOf(y, c), KeyOf(x, c))
  }

  lemma BeforeTransitive(x: FileRecord, y: FileRecord, z: FileRecord, c: Column, ascending: bool)
    requires Before(x, y, c, ascending) && Before(y, z, c, ascending)
    ensures Before(x, z, c, ascending)
  {
    if ascending {
      KeyLessTransitive(KeyOf(x, c), KeyOf(y, c), KeyOf(z, c));
    } else {
      KeyLessTransitive(KeyOf(z, c), KeyOf(y, c), KeyOf(x, c));
    }
  }

  lemma BeforeKeysDiffer(x: FileRecord, y: FileRecord, c: Column, ascending: bool)
    requires Before(x, y, c, ascending)
    ensures KeyOf(x, c) != KeyOf(y, c)
  {
    KeyLessIrreflexive(KeyOf(x, c));
  }

  /** No record is followed by one that should go before it. */
  predicate SortedBy(s: seq<FileRecord>, c: Column, ascending: bool) {
    forall i, j :: 0 <= i < j < |s| ==> !Before(s[j], s[i], c, ascending)
  }

  /** Inserts `x` into a sorted list after every record it does not go
      before, so it follows the records with the same key. */
  function Insert(x: FileRecord, s: seq<FileRecord>, c: Column, ascending: bool): (r: seq<FileRecord>)
    ensures multiset(r) == multiset(s) + multiset{x}
    ensures |r| == |s| + 1
  {
    if s == [] then [x]
    else if Before(x, s[0], c, ascending) then [x] + s
    else
      assert s == [s[0]] + s[1..];
      [s[0]] + Insert(x, s[1..], c, ascending)
  }

  lemma {:induction false} InsertSorted(x: FileRecord, s: seq<FileRecord>, c: Column, ascending: bool)
    requires SortedBy(s, c, ascending)
    ensures SortedBy(Insert(x, s, c, ascending), c, ascending)
  {
    if s == [] {
    } else if Before(x, s[0], c, ascending) {
      InsertSortedAtFront(x, s, c, ascending);
    } else {
      InsertSorted(x, s[1..], c, ascending);
      InsertNotBefore(x, s[1..], s[0], c, ascending);
      ConsSorted(s[0], Insert(x, s[1..], c, ascending), c, ascending);
    }
  }

  lemma InsertSortedAtFront(x: FileRecord, s: seq<FileRecord>, c: Column, ascending: bool)
    requires SortedBy(s, c, ascending) && s != [] && Before(x, s[0], c, ascending)
    ensures SortedBy([x] + s, c, ascending)
  {
    forall k | 0 <= k < |s| ensures !Before(s[k], x, c, ascending) {
      if Before(s[k], x, c, ascending) {
        BeforeTransitive(s[k], x, s[0], c, ascending);
        if k == 0 {
          KeyLessIrreflexive(KeyOf(s[0], c));
        }
      }
    }
    ConsSorted(x, s, c, ascending);
  }

  /** A record no later one goes before, in front of a sorted list. */
  lemma ConsSorted(y: FileRecord, t: seq<FileRecord>, c: Column, ascending: bool)
    requires SortedBy(t, c, ascending)
    requires forall k :: 0 <= k < |t| ==> !Before(t[k], y, c, ascending)
    ensures SortedBy([y] + t, c, ascending)
  {
    var r := [y] + t;
    forall i, j | 0 <= i < j < |r| ensures !Before(r[j], r[i], c, ascending) {
      assert r[j] == t[j - 1];
      if i > 0 {
        assert r[i] == t[i - 1];
      }
    }
  }

  /** Inserting a record that does not go before `y` keeps every record of
      the list from going before `y`. */
  lemma {:induction false} InsertNotBefore(x: FileRecord, s: seq<FileRecord>, y: FileRecord, c: Column, ascending: bool)
    requires !Before(x, y, c, ascending)
    requires forall k :: 0 <= k < |s| ==> !Before(s[k], y, c, ascending)
    ensures forall k :: 0 <= k < |Insert(x, s, c, ascending)| ==> !Before(Insert(x, s, c, ascending)[k], y, c, ascending)
  {
    if s != [] && !Before(x, s[0], c, ascending) {
      InsertNotBefore(x, s[1..], y, c, ascending);
      var t := Insert(x, s[1..], c, ascending);
      assert Insert(x, s, c, ascending) == [s[0]] + t;
    }
  }

  /** `list.sort(key=..., reverse=not ascending)`: a stable insertion sort. */
  function SortRecords(s: seq<FileRecord>, c: Column, ascending: bool): (r: seq<FileRecord>)
    ensures multiset(r) == multiset(s)
    ensures SortedBy(r, c, ascending)
  {
    if s == [] then []
    else
      var init := SortRecords(s[..|s| - 1], c, ascending);
      InsertSorted(s[|s| - 1], init, c, ascending);
      assert s == s[..|s| - 1] + [s[|s| - 1]];
      Insert(s[|s| - 1], init, c, ascending)
  }

  /** The sorted list holds exactly the records it was given. */
  lemma SortKeepsRecords(s: seq<FileRecord>, c: Column, ascending: bool)
    ensures forall f :: f in SortRecords(s, c, ascending) <==> f in s
  {
    var r := SortRecords(s, c, ascending);
    forall f ensures f in r <==> f in s {
      assert f in r <==> f in multiset(r);
      assert f in s <==> f in multiset(s);
    }
  }

  /** The records of `s` whose key is `k`, in order. */
  function WithKey(s: seq<FileRecord>, c: Column, k: SortKey): seq<FileRecord> {
    if s == [] then []
    else WithKey(s[..|s| - 1], c, k) + (if KeyOf(s[|s| - 1], c) == k then [s[|s| - 1]] else [])
  }

  lemma {:induction false} WithKeyCons(x: FileRecord, s: seq<FileRecord>, c: Column, k: SortKey)
    ensures WithKey([x] + s, c, k) == (if KeyOf(x, c) == k then [x] else []) + WithKey(s, c, k)
  {
    if s != [] {
      assert ([x] + s)[..|[x] + s| - 1] == [x] + s[..|s| - 1];
      WithKeyCons(x, s[..|s| - 1], c, k);
    } else {
      assert [x] + s == [x];
    }
  }

  /** Inserting `x` puts it after every record with its key. */
  lemma {:induction false} InsertWithKey(x: FileRecord, s: seq<FileRecord>, c: Column, ascending: bool, k: SortKey)
    requires SortedBy(s, c, ascending)
    ensures WithKey(Insert(x, s, c, ascending), c, k) == WithKey(s, c, k) + (if KeyOf(x, c) == k then [x] else [])
  {
    if s == [] {
      assert WithKey([x], c, k) == WithKey([], c, k) + (if KeyOf(x, c) == k then [x] else []);
    } else if Before(x, s[0], c, ascending) {
      InsertWithKeyAtFront(x, s, c, ascending, k);
    } else {
      InsertWithKey(x, s[1..], c, ascending, k);
      InsertWithKeyStep(x, s, c, ascending, k);
    }
  }

  lemma InsertWithKeyAtFront(x: FileRecord, s: seq<FileRecord>, c: Column, ascending: bool, k: SortKey)
    requires SortedBy(s, c, ascending) && s != [] && Before(x, s[0], c, ascending)
    ensures WithKey(Insert(x, s, c, ascending), c, k) == WithKey(s, c, k) + (if KeyOf(x, c) == k then [x] else [])
  {
    WithKeyCons(x, s, c, k);
    if KeyOf(x, c) == k {
      NoneWithKeyAfter(x, s, c, ascending);
    }
  }

  lemma InsertWithKeyStep(x: FileRecord, s: seq<FileRecord>, c: Column, ascending: bool, k: SortKey)
    requires s != [] && !Before(x, s[0], c, ascending)
    requires WithKey(Insert(x, s[1..], c, ascending), c, k) == WithKey(s[1..], c, k) + (if KeyOf(x, c) == k then [x] else [])
    ensures WithKey(Insert(x, s, c, ascending), c, k) == WithKey(s, c, k) + (if KeyOf(x, c) == k then [x] else [])
  {
    assert s == [s[0]] + s[1..];
    WithKeyCons(s[0], Insert(x, s[1..], c, ascending), c, k);
    WithKeyCons(s[0], s[1..], c, k);
  }

  /** Every record of a sorted list that `x` goes before has another key. */
  lemma NoneWithKeyAfter(x: FileRecord, s: seq<FileRecord>, c: Column, ascending: bool)
    requires SortedBy(s, c, ascending) && s != [] && Before(x, s[0], c, ascending)
    ensures WithKey(s, c, KeyOf(x, c)) == []
  {
    forall j | 0 <= j < |s| ensures Before(x, s[j], c, ascending) {
      if j > 0 && !Before(x, s[j], c, ascending) {
        NotBeforeSameOrAfter(x, s[0], s[j], c, ascending);
      }
    }
    WithKeyNone(s, c, KeyOf(x, c), x, ascending);
  }

  lemma NotBeforeSameOrAfter(x: FileRecord, a: FileRecord, b: FileRecord, c: Column, ascending: bool)
    requires Before(x, a, c, ascending) && !Before(b, a, c, ascending)
    ensures Before(x, b, c, ascending)
  {
    var kx, ka, kb := KeyOf(x, c), KeyOf(a, c), KeyOf(b, c);
    if ka.Text? && kb.Text? && kx.Text? {
      LessTotal(ka.s, kb.s);
      if Less(ka.s, kb.s) || Less(kb.s, ka.s) {
        if ascending {
          LessTransitive(kx.s, ka.s, kb.s);
        } else {
          LessTransitive(kb.s, ka.s, kx.s);
        }
      }
    }
  }

  lemma {:induction false} WithKeyNone(s: seq<FileRecord>, c: Column, k: SortKey, x: FileRecord, ascending: bool)
    requires k == KeyOf(x, c)
    requires forall j :: 0 <= j < |s| ==> Before(x, s[j], c, ascending)
    ensures WithKey(s, c, k) == []
  {
    if s != [] {
      WithKeyNone(s[..|s| - 1], c, k, x, ascending);
      BeforeKeysDiffer(x, s[|s| - 1], c, ascending);
    }
  }

  /** The sort is stable: the records sharing a key keep their order. */
  lemma {:induction false} SortStable(s: seq<FileRecord>, c: Column, ascending: bool, k: SortKey)
    ensures WithKey(SortRecords(s, c, ascending), c, k) == WithKey(s, c, k)
  {
    if s != [] {
      var init := s[..|s| - 1];
      SortStable(init, c, ascending, k);
      InsertWithKey(s[|s| - 1], SortRecords(init, c, ascending), c, ascending, k);
    }
  }
}
