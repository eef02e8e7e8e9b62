/** The recent-directories list: the `RecentDirectories` section of the
    configuration, whose options are timestamps (`%Y%m%d%H%M%S`) and whose
    values are the directories opened at those times, in the order the
    options were first set. The clock is a parameter. */
module Recent {
  import opened Text

  /** One option of the section. */
  datatype Entry = Entry(key: string, dir: string)

  /** How many directories the list keeps. */
  const Limit: nat := 10

  /** A configuration section never holds the same option twice. */
  predicate DistinctKeys(e: seq<Entry>) {
    forall i, j :: 0 <= i < j < |e| ==> e[i].key != e[j].key
  }

  predicate DistinctDirs(e: seq<Entry>) {
    forall i, j :: 0 <= i < j < |e| ==> e[i].dir != e[j].dir
  }

  function Keys(e: seq<Entry>): (r: seq<string>)
    ensures |r| == |e| && forall i :: 0 <= i < |e| ==> r[i] == e[i].key
  {
    seq(|e|, i requires 0 <= i < |e| => e[i].key)
  }

  /** `get_recent_directories()`: the values, in order. */
  function Dirs(e: seq<Entry>): (r: seq<string>)
    ensures |r| == |e| && forall i :: 0 <= i < |e| ==> r[i] == e[i].dir
  {
    seq(|e|, i requires 0 <= i < |e| => e[i].dir)
  }

  lemma PrefixDistinct(e: seq<Entry>, n: nat)
    requires n <= |e|
    ensures DistinctKeys(e) ==> DistinctKeys(e[..n])
    ensures DistinctDirs(e) ==> DistinctDirs(e[..n])
  {
  }

  /** The last entry differs from every earlier one in key and in value
      when the whole list does. */
  lemma LastApart(e: seq<Entry>)
    requires e != []
    ensures DistinctKeys(e) ==> forall y :: y in e[..|e| - 1] ==> y.key != e[|e| - 1].key
    ensures DistinctDirs(e) ==> forall y :: y in e[..|e| - 1] ==> y.dir != e[|e| - 1].dir
  {
    var n := |e| - 1;
    forall y | y in e[..n] ensures exists m :: 0 <= m < n && e[m] == y {
      var m :| 0 <= m < n && e[..n][m] == y;
      assert e[m] == y;
    }
  }

  /** Appending an entry whose key and value are new keeps the list
      distinct. */
  lemma AppendApart(a: seq<Entry>, x: Entry)
    ensures DistinctKeys(a) && (forall y :: y in a ==> y.key != x.key) ==> DistinctKeys(a + [x])
    ensures DistinctDirs(a) && (forall y :: y in a ==> y.dir != x.dir) ==> DistinctDirs(a + [x])
  {
    var r := a + [x];
    forall i | 0 <= i < |a| ensures r[i] in a {
    }
  }

  /** `remove_option(section, k)`. */
  function WithoutKey(e: seq<Entry>, k: string): seq<Entry> {
    if e == [] then []
    else
      var last := e[|e| - 1];
      WithoutKey(e[..|e| - 1], k) + (if last.key == k then [] else [last])
  }

  /** The entries whose value is not `d`. */
  function WithoutDir(e: seq<Entry>, d: string): seq<Entry> {
    if e == [] then []
    else
      var last := e[|e| - 1];
      WithoutDir(e[..|e| - 1], d) + (if last.dir == d then [] else [last])
  }

  /** `for key in ks: remove_option(section, key)`. */
  function WithoutKeys(e: seq<Entry>, ks: seq<string>): seq<Entry> {
    if ks == [] then e
    else WithoutKey(WithoutKeys(e, ks[..|ks| - 1]), ks[|ks| - 1])
  }

  /** Removing an option removes exactly the entries with that key. */
  lemma {:induction false} WithoutKeyMembers(e: seq<Entry>, k: string)
    ensures forall x :: x in WithoutKey(e, k) <==> x in e && x.key != k
  {
    if e != [] {
      var n := |e| - 1;
      assert e == e[..n] + [e[n]];
      WithoutKeyMembers(e[..n], k);
    }
  }

  /** Removing a directory's options removes exactly its entries. */
  lemma {:induction false} WithoutDirMembers(e: seq<Entry>, d: string)
    ensures forall x :: x in WithoutDir(e, d) <==> x in e && x.dir != d
  {
    if e != [] {
      var n := |e| - 1;
      assert e == e[..n] + [e[n]];
      WithoutDirMembers(e[..n], d);
    }
  }

  /** Removing several options removes exactly the entries with those keys. */
  lemma {:induction false} WithoutKeysMembers(e: seq<Entry>, ks: seq<string>)
    ensures forall x :: x in WithoutKeys(e, ks) <==> x in e && x.key !in ks
  {
    if ks != [] {
      var n := |ks| - 1;
      assert ks == ks[..n] + [ks[n]];
      WithoutKeysMembers(e, ks[..n]);
      WithoutKeyMembers(WithoutKeys(e, ks[..n]), ks[n]);
    }
  }

  lemma {:induction false} WithoutKeyDistinct(e: seq<Entry>, k: string)
    ensures DistinctKeys(e) ==> DistinctKeys(WithoutKey(e, k))
    ensures DistinctDirs(e) ==> DistinctDirs(WithoutKey(e, k))
  {
    if e != [] {
      var init := e[..|e| - 1];
      var last := e[|e| - 1];
      PrefixDistinct(e, |e| - 1);
      WithoutKeyDistinct(init, k);
      WithoutKeyMembers(init, k);
      LastApart(e);
      AppendApart(WithoutKey(init, k), last);
    }
  }

  lemma {:induction false} WithoutDirDistinct(e: seq<Entry>, d: string)
    ensures DistinctKeys(e) ==> DistinctKeys(WithoutDir(e, d))
    ensures DistinctDirs(e) ==> DistinctDirs(WithoutDir(e, d))
  {
    if e != [] {
      var init := e[..|e| - 1];
      var last := e[|e| - 1];
      PrefixDistinct(e, |e| - 1);
      WithoutDirDistinct(init, d);
      WithoutDirMembers(init, d);
      LastApart(e);
      AppendApart(WithoutDir(init, d), last);
    }
  }

  lemma {:induction false} WithoutKeysDistinct(e: seq<Entry>, ks: seq<string>)
    ensures DistinctKeys(e) ==> DistinctKeys(WithoutKeys(e, ks))
    ensures DistinctDirs(e) ==> DistinctDirs(WithoutKeys(e, ks))
  {
    if ks != [] {
      WithoutKeysDistinct(e, ks[..|ks| - 1]);
      WithoutKeyDistinct(WithoutKeys(e, ks[..|ks| - 1]), ks[|ks| - 1]);
    }
  }

  /** Some entry has key `k`. */
  predicate HasKey(e: seq<Entry>, k: string) {
    exists i :: 0 <= i < |e| && e[i].key == k
  }

  /** Where option `k` sits, or `|e|` when there is none. */
  function IndexOf(e: seq<Entry>, k: string): (i: nat)
    ensures i <= |e|
    ensures i < |e| ==> e[i].key == k
    ensures forall j :: 0 <= j < i ==> e[j].key != k
  {
    if e == [] then 0
    else if e[0].key == k then 0
    else 1 + IndexOf(e[1..], k)
  }

  /** `config.set(section, k, v)`: an existing option keeps its place and
      takes the new value; a new one goes last. */
  function SetOption(e: seq<Entry>, k: string, v: string): (r: seq<Entry>)
    ensures !HasKey(e, k) ==> r == e + [Entry(k, v)]
    ensures HasKey(e, k) ==> |r| == |e|
  {
    var i := IndexOf(e, k);
    if i < |e| then e[i := Entry(k, v)] else e + [Entry(k, v)]
  }

  /** Setting an option replaces the entry with its key, if any, by the
      new entry, and keeps keys distinct. */
  lemma SetOptionEffect(e: seq<Entry>, k: string, v: string)
    requires DistinctKeys(e)
    ensures forall x :: x in SetOption(e, k, v) <==> (x in e && x.key != k) || x == Entry(k, v)
    ensures DistinctKeys(SetOption(e, k, v))
  {
    var i := IndexOf(e, k);
    var r := SetOption(e, k, v);
    if i < |e| {
      assert r[i] == Entry(k, v);
      forall x | x in e && x.key != k ensures x in r {
        var m :| 0 <= m < |e| && e[m] == x;
        assert r[m] == x;
      }
      forall x | x in r ensures (x in e && x.key != k) || x == Entry(k, v) {
        var m :| 0 <= m < |r| && r[m] == x;
        if m != i {
          assert e[m] == x;
        }
      }
      forall a, b | 0 <= a < b < |r| ensures r[a].key != r[b].key {
        if a != i && b != i {
          assert r[a] == e[a] && r[b] == e[b];
        }
      }
    } else {
      forall x | x in e ensures x.key != k {
        var m :| 0 <= m < |e| && e[m] == x;
      }
      AppendApart(e, Entry(k, v));
    }
  }

  /** A duplicate-free list has as many elements as its set. */
  lemma {:induction false} DistinctCount(s: seq<string>)
    requires forall i, j :: 0 <= i < j < |s| ==> s[i] != s[j]
    ensures |set x | x in s| == |s|
  {
    if s != [] {
      var n := |s| - 1;
      DistinctCount(s[..n]);
      assert (set x | x in s) == (set x | x in s[..n]) + {s[n]};
    }
  }

  function Reverse(s: seq<string>): (r: seq<string>)
    ensures |r| == |s| && forall i :: 0 <= i < |s| ==> r[i] == s[|s| - 1 - i]
  {
    seq(|s|, i requires 0 <= i < |s| => s[|s| - 1 - i])
  }

  /** The keys in the order `items.sort(reverse=True)` leaves the options
      in: newest first, each once. */
  function NewestFirst(e: seq<Entry>): (r: seq<string>)
    ensures forall i, j :: 0 <= i < j < |r| ==> Less(r[j], r[i])
    ensures forall k :: k in r <==> HasKey(e, k)
    ensures DistinctKeys(e) ==> |r| == |e|
  {
    var keys := Keys(e);
    var asc := SortedDistinct(keys);
    var r := Reverse(asc);
    assert forall k :: k in r <==> k in asc by {
      forall k | k in asc ensures k in r {
        var m :| 0 <= m < |asc| && asc[m] == k;
        assert r[|asc| - 1 - m] == k;
      }
    }
    assert forall k :: k in keys <==> HasKey(e, k) by {
      forall k | HasKey(e, k) ensures k in keys {
        var m :| 0 <= m < |e| && e[m].key == k;
        assert keys[m] == k;
      }
    }
    if DistinctKeys(e) then
      forall i, j | 0 <= i < j < |asc| ensures asc[i] != asc[j] {
        StrictlySortedNoDuplicates(asc, i, j);
      }
      DistinctCount(asc);
      DistinctCount(keys);
      assert (set x | x in asc) == (set x | x in keys);
      r
    else
      r
  }

  /** The keys the trimming step removes: all but the ten newest. */
  function Dropped(e: seq<Entry>): seq<string>
    requires DistinctKeys(e)
  {
    if |e| > Limit then NewestFirst(e)[Limit..] else []
  }

  /** The section once the old entries of the directory are gone and the
      new one is set. */
  function Listed(e: seq<Entry>, d: string, ts: string): (r: seq<Entry>)
    requires DistinctKeys(e)
    ensures DistinctKeys(r)
  {
    WithoutDirDistinct(e, d);
    SetOptionEffect(WithoutDir(e, d), ts, d);
    SetOption(WithoutDir(e, d), ts, d)
  }

  /** `add_recent_directory(d)` at time `ts`. */
  function AddSpec(e: seq<Entry>, d: string, ts: string): seq<Entry>
    requires DistinctKeys(e)
  {
    var listed := Listed(e, d, ts);
    WithoutKeys(listed, Dropped(listed))
  }

  /** Removing one present key from a section removes one entry. */
  lemma {:induction false} WithoutKeyLength(e: seq<Entry>, k: string)
    requires DistinctKeys(e) && HasKey(e, k)
    ensures |WithoutKey(e, k)| == |e| - 1
  {
    var n := |e| - 1;
    var init := e[..n];
    assert WithoutKey(e, k) == WithoutKey(init, k) + (if e[n].key == k then [] else [e[n]]);
    if e[n].key == k {
      LastApart(e);
      WithoutAbsentKey(init, k);
    } else {
      var m :| 0 <= m < |e| && e[m].key == k;
      assert m < n && init[m].key == k;
      PrefixDistinct(e, n);
      WithoutKeyLength(init, k);
    }
  }

  lemma {:induction false} WithoutAbsentKey(e: seq<Entry>, k: string)
    requires forall x :: x in e ==> x.key != k
    ensures WithoutKey(e, k) == e
  {
    if e != [] {
      var n := |e| - 1;
      assert e == e[..n] + [e[n]];
      WithoutAbsentKey(e[..n], k);
    }
  }

  /** Removing distinct present keys removes one entry each. */
  lemma {:induction false} WithoutKeysLength(e: seq<Entry>, ks: seq<string>)
    requires DistinctKeys(e)
    requires forall i, j :: 0 <= i < j < |ks| ==> ks[i] != ks[j]
    requires forall k :: k in ks ==> HasKey(e, k)
    ensures |WithoutKeys(e, ks)| == |e| - |ks|
  {
    if ks != [] {
      var n := |ks| - 1;
      var init := ks[..n];
      WithoutKeysLength(e, init);
      var u := WithoutKeys(e, init);
      assert ks[n] !in init;
      assert ks[n] in ks;
      var m :| 0 <= m < |e| && e[m].key == ks[n];
      WithoutKeysMembers(e, init);
      assert e[m] in u;
      var p :| 0 <= p < |u| && u[p] == e[m];
      WithoutKeysDistinct(e, init);
      WithoutKeyLength(u, ks[n]);
    }
  }

  /** Removing keys other than the last entry's keeps that entry last. */
  lemma {:induction false} WithoutKeysKeepsLast(a: seq<Entry>, x: Entry, ks: seq<string>)
    requires x.key !in ks
    ensures WithoutKeys(a + [x], ks) == WithoutKeys(a, ks) + [x]
  {
    if ks != [] {
      var n := |ks| - 1;
      WithoutKeysKeepsLast(a, x, ks[..n]);
      var b := WithoutKeys(a, ks[..n]);
      assert (b + [x])[..|b + [x]| - 1] == b;
    }
  }

  /** The list never grows past ten: it keeps every entry when there are
      at most ten, and exactly ten otherwise. */
  lemma AddBounded(e: seq<Entry>, d: string, ts: string)
    requires DistinctKeys(e)
    ensures |AddSpec(e, d, ts)| == if |Listed(e, d, ts)| > Limit then Limit else |Listed(e, d, ts)|
    ensures |AddSpec(e, d, ts)| <= Limit
  {
    var listed := Listed(e, d, ts);
    if |listed| > Limit {
      var ks := NewestFirst(listed)[Limit..];
      forall i, j | 0 <= i < j < |ks| ensures ks[i] != ks[j] {
        LessIrreflexive(ks[i]);
      }
      WithoutKeysLength(listed, ks);
    }
  }

  /** Only the oldest entries go: every entry kept is newer than every
      entry dropped. */
  lemma AddKeepsNewest(e: seq<Entry>, d: string, ts: string)
    requires DistinctKeys(e)
    ensures forall x, y :: x in AddSpec(e, d, ts) && y in Listed(e, d, ts) && y !in AddSpec(e, d, ts) ==> Less(y.key, x.key)
  {
    var listed := Listed(e, d, ts);
    var dropped := Dropped(listed);
    WithoutKeysMembers(listed, dropped);
    forall x, y | x in AddSpec(e, d, ts) && y in listed && y !in AddSpec(e, d, ts)
      ensures Less(y.key, x.key)
    {
      KeptNewer(listed, x, y);
    }
  }

  /** An entry whose key is not dropped is newer than one whose key is. */
  lemma KeptNewer(listed: seq<Entry>, x: Entry, y: Entry)
    requires DistinctKeys(listed)
    requires x in listed && y in listed
    requires x.key !in Dropped(listed) && y.key in Dropped(listed)
    ensures Less(y.key, x.key)
  {
    var desc := NewestFirst(listed);
    var m :| 0 <= m < |listed| && listed[m] == x;
    assert HasKey(listed, x.key);
    var i :| 0 <= i < |desc| && desc[i] == x.key;
    var j :| 0 <= j < |desc[Limit..]| && desc[Limit..][j] == y.key;
    assert desc[j + Limit] == y.key;
  }

  /** A directory opened at a time later than every listed time is listed
      afterwards, last: the list runs from the oldest to the newest. */
  lemma AddListsNewestLast(e: seq<Entry>, d: string, ts: string)
    requires DistinctKeys(e)
    requires forall x :: x in e ==> Less(x.key, ts)
    ensures var r := AddSpec(e, d, ts); r != [] && r[|r| - 1] == Entry(ts, d)
  {
    var kept := WithoutDir(e, d);
    WithoutDirMembers(e, d);
    LessIrreflexive(ts);
    assert !HasKey(kept, ts);
    var listed := Listed(e, d, ts);
    assert listed == kept + [Entry(ts, d)];
    var desc := NewestFirst(listed);
    assert HasKey(listed, ts) by {
      assert listed[|kept|].key == ts;
    }
    var i :| 0 <= i < |desc| && desc[i] == ts;
    if i > 0 {
      assert HasKey(listed, desc[0]);
      var m :| 0 <= m < |listed| && listed[m].key == desc[0];
      LessAsymmetric(desc[0], ts);
    }
    assert ts !in Dropped(listed);
    WithoutKeysKeepsLast(kept, Entry(ts, d), Dropped(listed));
  }

  /** The list keeps listing each directory once. */
  lemma AddKeepsDirsDistinct(e: seq<Entry>, d: string, ts: string)
    requires DistinctKeys(e) && DistinctDirs(e)
    ensures DistinctKeys(AddSpec(e, d, ts)) && DistinctDirs(AddSpec(e, d, ts))
  {
    var kept := WithoutDir(e, d);
    WithoutDirDistinct(e, d);
    WithoutDirMembers(e, d);
    var i := IndexOf(kept, ts);
    var listed := Listed(e, d, ts);
    if i < |kept| {
      forall a, b | 0 <= a < b < |listed| ensures listed[a].dir != listed[b].dir {
        if a != i && b != i {
          assert listed[a] == kept[a] && listed[b] == kept[b];
        } else if a == i {
          assert kept[b] in kept;
        } else {
          assert kept[a] in kept;
        }
      }
    } else {
      AppendApart(kept, Entry(ts, d));
    }
    WithoutKeysDistinct(listed, Dropped(listed));
  }

  /** Two directories opened within the same second share a key: the
      second overwrites the first, which drops off the list. */
  lemma SameSecondOverwrites(e: seq<Entry>, d: string, ts: string, other: string)
    requires DistinctKeys(e) && DistinctDirs(e)
    requires Entry(ts, other) in e && other != d
    ensures forall x :: x in AddSpec(e, d, ts) ==> x.dir != other
  {
    forall x | x in e && x.dir == other ensures x == Entry(ts, other) {
      var m :| 0 <= m < |e| && e[m] == x;
      var n :| 0 <= n < |e| && e[n] == Entry(ts, other);
      assert m == n;
    }
    var kept := WithoutDir(e, d);
    WithoutDirMembers(e, d);
    WithoutDirDistinct(e, d);
    SetOptionEffect(kept, ts, d);
    var listed := Listed(e, d, ts);
    WithoutKeysMembers(listed, Dropped(listed));
  }

  /** The recent-directory state of the browser: the configuration section
      and the list shown in the directory drop-down. */
  class RecentDirectories {
    var entries: seq<Entry>
    var shown: seq<string>

    ghost predicate Valid()
      reads this
    {
      DistinctKeys(entries)
    }

    /** A configuration without the section. */
    constructor()
      ensures Valid() && entries == [] && shown == []
    {
      entries := [];
      shown := [];
    }

    /** `add_recent_directory(directory)`, with `timestamp` the clock
        reading it formats. */
    method Add(directory: string, timestamp: string)
      requires Valid()
      modifies this
      ensures Valid()
      ensures entries == AddSpec(old(entries), directory, timestamp)
      ensures shown == Dirs(entries)
    {
      var kept := RemoveDirectory(entries, directory);
      WithoutDirDistinct(entries, directory);
      SetOptionEffect(kept, timestamp, directory);
      var listed := SetOption(kept, timestamp, directory);
      entries := TrimOldest(listed);
      WithoutKeysDistinct(listed, Dropped(listed));
      shown := Dirs(entries);
    }
  }

  /** `for key, value in items: if value == d: remove_option(key)`. */
  method RemoveDirectory(items: seq<Entry>, d: string) returns (entries: seq<Entry>)
    requires DistinctKeys(items)
    ensures entries == WithoutDir(items, d)
  {
    entries := items;
    for i := 0 to |items|
      invariant entries == WithoutDir(items[..i], d) + items[i..]
    {
      if items[i].dir == d {
        RemoveStep(items, i);
        entries := WithoutKey(entries, items[i].key);
      } else {
        KeepStep(items, i, d);
      }
    }
    assert items[..|items|] == items;
  }

  /** Keeps the ten newest options: when there are more, sorts them newest
      first and removes every option after the tenth. */
  method TrimOldest(listed: seq<Entry>) returns (entries: seq<Entry>)
    requires DistinctKeys(listed)
    ensures entries == WithoutKeys(listed, Dropped(listed))
  {
    entries := listed;
    if |listed| > Limit {
      var dropped := NewestFirst(listed)[Limit..];
      for j := 0 to |dropped|
        invariant entries == WithoutKeys(listed, dropped[..j])
      {
        assert dropped[..j + 1][..j] == dropped[..j];
        entries := WithoutKey(entries, dropped[j]);
      }
      assert dropped[..|dropped|] == dropped;
    }
  }

  /** Removing the option of the `i`th item, whose value is the directory,
      turns the list with the first `i` items filtered into the list with
      the first `i + 1` filtered. */
  lemma {:induction false} RemoveStep(items: seq<Entry>, i: nat)
    requires DistinctKeys(items) && i < |items|
    ensures WithoutKey(WithoutDir(items[..i], items[i].dir) + items[i..], items[i].key)
      == WithoutDir(items[..i + 1], items[i].dir) + items[i + 1..]
  {
    var k := items[i].key;
    var w := WithoutDir(items[..i], items[i].dir);
    KeyNotBefore(items, i);
    WithoutAbsentKey(w, k);
    DropKeyAt(items, i);
    WithoutKeyAppend(w, items[i..], k);
    assert items[..i + 1][..i] == items[..i];
  }

  /** An item with another directory stays where it is. */
  lemma KeepStep(items: seq<Entry>, i: nat, d: string)
    requires i < |items| && items[i].dir != d
    ensures WithoutDir(items[..i], d) + items[i..] == WithoutDir(items[..i + 1], d) + items[i + 1..]
  {
    assert items[..i + 1][..i] == items[..i];
    assert WithoutDir(items[..i + 1], d) == WithoutDir(items[..i], d) + [items[i]];
    assert items[i..] == [items[i]] + items[i + 1..];
  }

  /** The earlier items, filtered, do not hold the `i`th item's key. */
  lemma {:induction false} KeyNotBefore(items: seq<Entry>, i: nat)
    requires DistinctKeys(items) && i < |items|
    ensures forall x :: x in WithoutDir(items[..i], items[i].dir) ==> x.key != items[i].key
  {
    WithoutDirMembers(items[..i], items[i].dir);
    forall x | x in items[..i] ensures x.key != items[i].key {
      var m :| 0 <= m < i && items[..i][m] == x;
    }
  }

  /** Removing the `i`th item's key from the items from `i` on leaves the
      items after it. */
  lemma {:induction false} DropKeyAt(items: seq<Entry>, i: nat)
    requires DistinctKeys(items) && i < |items|
    ensures WithoutKey(items[i..], items[i].key) == items[i + 1..]
  {
    var k := items[i].key;
    var rest := items[i + 1..];
    forall x | x in rest ensures x.key != k {
      var m :| 0 <= m < |rest| && rest[m] == x;
      assert items[i + 1 + m] == x;
    }
    WithoutAbsentKey(rest, k);
    assert items[i..] == [items[i]] + rest;
    WithoutKeyAppend([items[i]], rest, k);
    WithoutKeyAppend([], [items[i]], k);
  }

  lemma {:induction false} WithoutKeyAppend(a: seq<Entry>, b: seq<Entry>, k: string)
    ensures WithoutKey(a + b, k) == WithoutKey(a, k) + WithoutKey(b, k)
  {
    if b != [] {
      var n := |b| - 1;
      WithoutKeyAppend(a, b[..n], k);
      var c := a + b;
      assert c[..|c| - 1] == a + b[..n] && c[|c| - 1] == b[n];
      var tail := if b[n].key == k then [] else [b[n]];
      assert WithoutKey(c, k) == WithoutKey(a + b[..n], k) + tail;
      assert WithoutKey(b, k) == WithoutKey(b[..n], k) + tail;
      assert (WithoutKey(a, k) + WithoutKey(b[..n], k)) + tail == WithoutKey(a, k) + (WithoutKey(b[..n], k) + tail);
    } else {
      assert a + b == a;
    }
  }
}
