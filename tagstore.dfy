/** The dual tag store: the global `tags.json` (file path -> tag list) and,
    in each directory, a `local_tags.json` (base name -> tag list).
    `add_tag_to_file`, `remove_tag_from_file`, `get_tags_for_file` and
    `get_all_tags` read both files whole, change the loaded dictionaries in
    place and write them back whole. */
module TagStore {
  import opened Text

  type Tag = string

  /** A file path split into its directory and its base name. */
  datatype Path = Path(dir: string, base: string)

  /** What is on disk where a store file should be: nothing, text that does
      not decode as JSON, or a decoded mapping. */
  datatype StoreFile<K> = Missing | Corrupt | Json(entries: map<K, seq<Tag>>)

  /** The whole persistent state: the global file and the local file of each
      directory (a directory absent from `locals` has no local file). */
  datatype Stores = Stores(global: StoreFile<Path>, locals: map<string, StoreFile<string>>)

  /** `json.load` inside `try`: a missing or undecodable file reads as {}. */
  function Entries<K>(f: StoreFile<K>): map<K, seq<Tag>> {
    if f.Json? then f.entries else map[]
  }

  /** `data.get(key, [])`. */
  function Get<K>(m: map<K, seq<Tag>>, k: K): seq<Tag> {
    if k in m then m[k] else []
  }

  function LocalFile(s: Stores, dir: string): StoreFile<string> {
    if dir in s.locals then s.locals[dir] else Missing
  }

  /** The tags the global file lists for `p`. */
  function GlobalTags(s: Stores, p: Path): seq<Tag> {
    Get(Entries(s.global), p)
  }

  /** The tags the local file of `p`'s directory lists for its base name. */
  function LocalTags(s: Stores, p: Path): seq<Tag> {
    Get(Entries(LocalFile(s, p.dir)), p.base)
  }

  predicate NoDup(l: seq<Tag>) {
    forall i, j :: 0 <= i < j < |l| ==> l[i] != l[j]
  }

  /** The shape the application itself keeps: no empty list is stored and
      no list repeats a tag. */
  predicate WellFormedMap<K>(m: map<K, seq<Tag>>) {
    forall k :: k in m ==> m[k] != [] && NoDup(m[k])
  }

  predicate WellFormed(s: Stores) {
    WellFormedMap(Entries(s.global))
    && forall d :: d in s.locals ==> WellFormedMap(Entries(s.locals[d]))
  }

  /** `if tag not in l: l.append(tag)`. */
  function AppendNew(l: seq<Tag>, tag: Tag): (r: seq<Tag>)
    ensures tag in r
    ensures NoDup(l) ==> NoDup(r)
  {
    if tag in l then l else l + [tag]
  }

  /** The loaded dictionary after `if k not in d: d[k] = []` and
      `if tag not in d[k]: d[k].append(tag)`. */
  function WithTag<K>(m: map<K, seq<Tag>>, k: K, tag: Tag): (r: map<K, seq<Tag>>)
  {
    m[k := AppendNew(Get(m, k), tag)]
  }

  /** `l.remove(tag)`: drops the first occurrence and keeps the order of
      the rest. */
  function RemoveFirst(l: seq<Tag>, tag: Tag): (r: seq<Tag>)
    requires tag in l
    ensures |r| == |l| - 1
    ensures multiset(r) == multiset(l) - multiset{tag}
  {
    assert l == [l[0]] + l[1..];
    if l[0] == tag then l[1..]
    else [l[0]] + RemoveFirst(l[1..], tag)
  }

  /** On a duplicate-free list, `remove` takes the tag out entirely and
      keeps the list duplicate-free. */
  lemma {:induction false} RemoveFirstNoDup(l: seq<Tag>, tag: Tag)
    requires tag in l && NoDup(l)
    ensures NoDup(RemoveFirst(l, tag))
    ensures forall x :: x in RemoveFirst(l, tag) <==> x in l && x != tag
  {
    assert l == [l[0]] + l[1..];
    assert NoDup(l[1..]);
    if l[0] != tag {
      RemoveFirstNoDup(l[1..], tag);
      var rest := RemoveFirst(l[1..], tag);
      assert l[0] !in rest;
      var r := [l[0]] + rest;
      forall i, j | 0 <= i < j < |r| ensures r[i] != r[j] {
        if i == 0 {
          assert r[j] == rest[j - 1];
        } else {
          assert r[i] == rest[i - 1] && r[j] == rest[j - 1];
        }
      }
    }
  }

  /** The loaded dictionary after `d[k].remove(tag)` and, when the list
      becomes empty, `d.pop(k)`. */
  function WithoutTag<K>(m: map<K, seq<Tag>>, k: K, tag: Tag): map<K, seq<Tag>>
    requires k in m && tag in m[k]
  {
    var l := RemoveFirst(m[k], tag);
    if l == [] then m - {k} else m[k := l]
  }

  /** One store file after the `remove_tag_from_file` step for it: the file
      is rewritten only when the key lists the tag; a missing file is never
      created and a corrupt one never rewritten. Also says whether it changed. */
  function RemoveFrom<K>(f: StoreFile<K>, k: K, tag: Tag): (r: (StoreFile<K>, bool))
  {
    if f.Json? && k in f.entries && tag in f.entries[k] then (Json(WithoutTag(f.entries, k, tag)), true)
    else (f, false)
  }

  /** `add_tag_to_file(p, tag)`: the new state and the returned flag. */
  function AddTagSpec(s: Stores, p: Path, tag: Tag): (Stores, bool) {
    if Strip(tag) == [] then (s, false)
    else
      var g := Json(WithTag(Entries(s.global), p, tag));
      var l := Json(WithTag(Entries(LocalFile(s, p.dir)), p.base, tag));
      (Stores(g, s.locals[p.dir := l]), true)
  }

  /** `remove_tag_from_file(p, tag)`: the new state and the returned flag. */
  function RemoveTagSpec(s: Stores, p: Path, tag: Tag): (Stores, bool) {
    var (g, changedG) := RemoveFrom(s.global, p, tag);
    var lf := LocalFile(s, p.dir);
    var (l, changedL) := RemoveFrom(lf, p.base, tag);
    var locals := if p.dir in s.locals then s.locals[p.dir := l] else s.locals;
    (Stores(g, locals), changedG || changedL)
  }

  /** The local tags kept after the global ones: each local tag that is
      neither global nor an earlier local tag, in local order. */
  function LocalOnly(g: seq<Tag>, l: seq<Tag>): seq<Tag> {
    if l == [] then []
    else
      var init := l[..|l| - 1];
      var t := l[|l| - 1];
      LocalOnly(g, init) + (if t in g || t in init then [] else [t])
  }

  /** The list `get_tags_for_file` builds: the global list, then each local
      tag not already collected, in order. */
  function MergeTags(g: seq<Tag>, l: seq<Tag>): (r: seq<Tag>)
    ensures |g| <= |r| && r[..|g|] == g
    ensures forall t :: t in r <==> t in g || t in l
    ensures NoDup(g) ==> NoDup(r)
    ensures forall i :: |g| <= i < |r| ==> r[i] in l && r[i] !in g
  {
    if l == [] then g
    else
      var r := MergeTags(g, l[..|l| - 1]);
      var t := l[|l| - 1];
      assert l == l[..|l| - 1] + [t];
      if t in r then r else r + [t]
  }

  /** After the global list, the merged list holds exactly the local-only
      tags, in local order. */
  lemma {:induction false} MergeTagsOrder(g: seq<Tag>, l: seq<Tag>)
    ensures MergeTags(g, l)[|g|..] == LocalOnly(g, l)
  {
    if l != [] {
      var init := l[..|l| - 1];
      var t := l[|l| - 1];
      MergeTagsOrder(g, init);
      var r := MergeTags(g, init);
      assert l == init + [t];
      if t !in r {
        assert (r + [t])[|g|..] == r[|g|..] + [t];
      }
    }
  }

  /** `get_tags_for_file(p)`. */
  function TagsForSpec(s: Stores, p: Path): seq<Tag> {
    MergeTags(GlobalTags(s, p), LocalTags(s, p))
  }

  /** A tag `get_all_tags` reports: listed for some path in the global file. */
  predicate InGlobal(s: Stores, t: Tag) {
    exists p :: p in Entries(s.global) && t in Entries(s.global)[p]
  }

  class TagDatabase {
    var global: StoreFile<Path>
    var locals: map<string, StoreFile<string>>

    function State(): Stores
      reads this
    {
      Stores(global, locals)
    }

    constructor (initial: Stores)
      ensures State() == initial
    {
      global := initial.global;
      locals := initial.locals;
    }

    /** `add_tag_to_file`. */
    method AddTag(p: Path, tag: Tag) returns (ok: bool)
      modifies this
      ensures State() == AddTagSpec(old(State()), p, tag).0
      ensures ok == AddTagSpec(old(State()), p, tag).1
    {
      if Strip(tag) == [] {
        return false;
      }
      AddToGlobal(p, tag);
      AddToLocal(p, tag);
      ok := true;
    }

    /** The master-file half of `add_tag_to_file`. */
    method AddToGlobal(p: Path, tag: Tag)
      modifies this
      ensures global == Json(WithTag(Entries(old(global)), p, tag))
      ensures locals == old(locals)
    {
      var tagsData := Entries(global);
      if p !in tagsData {
        tagsData := tagsData[p := []];
      }
      if tag !in tagsData[p] {
        tagsData := tagsData[p := tagsData[p] + [tag]];
      }
      global := Json(tagsData);
    }

    /** The local-file half of `add_tag_to_file`. */
    method AddToLocal(p: Path, tag: Tag)
      modifies this
      ensures global == old(global)
      ensures locals == old(locals)[p.dir := Json(WithTag(Entries(LocalFile(old(State()), p.dir)), p.base, tag))]
    {
      var localData := Entries(if p.dir in locals then locals[p.dir] else Missing);
      if p.base !in localData {
        localData := localData[p.base := []];
      }
      if tag !in localData[p.base] {
        localData := localData[p.base := localData[p.base] + [tag]];
      }
      assert localData == WithTag(Entries(LocalFile(old(State()), p.dir)), p.base, tag);
      locals := locals[p.dir := Json(localData)];
    }

    /** `remove_tag_from_file`. */
    method RemoveTag(p: Path, tag: Tag) returns (updated: bool)
      modifies this
      ensures State() == RemoveTagSpec(old(State()), p, tag).0
      ensures updated == RemoveTagSpec(old(State()), p, tag).1
    {
      var updatedGlobal := RemoveFromGlobal(p, tag);
      var updatedLocal := RemoveFromLocal(p, tag);
      updated := updatedGlobal || updatedLocal;
    }

    /** The master-file half of `remove_tag_from_file`. */
    method RemoveFromGlobal(p: Path, tag: Tag) returns (updated: bool)
      modifies this
      ensures (global, updated) == RemoveFrom(old(global), p, tag)
      ensures locals == old(locals)
    {
      updated := false;
      if !global.Missing? {
        var tagsData := Entries(global);
        if p in tagsData && tag in tagsData[p] {
          tagsData := tagsData[p := RemoveFirst(tagsData[p], tag)];
          updated := true;
          if tagsData[p] == [] {
            tagsData := tagsData - {p};
          }
          assert tagsData == WithoutTag(Entries(old(global)), p, tag);
          global := Json(tagsData);
        }
      }
    }

    /** The local-file half of `remove_tag_from_file`. */
    method RemoveFromLocal(p: Path, tag: Tag) returns (updated: bool)
      modifies this
      ensures global == old(global)
      ensures var (l, changed) := RemoveFrom(LocalFile(old(State()), p.dir), p.base, tag);
        updated == changed && locals == if p.dir in old(locals) then old(locals)[p.dir := l] else old(locals)
    {
      updated := false;
      if p.dir in locals && !locals[p.dir].Missing? {
        var localData := Entries(locals[p.dir]);
        if p.base in localData && tag in localData[p.base] {
          localData := localData[p.base := RemoveFirst(localData[p.base], tag)];
          updated := true;
          if localData[p.base] == [] {
            localData := localData - {p.base};
          }
          assert localData == WithoutTag(Entries(old(locals)[p.dir]), p.base, tag);
          locals := locals[p.dir := Json(localData)];
        }
      }
    }

    /** `get_tags_for_file`. */
    method TagsFor(p: Path) returns (tags: seq<Tag>)
      ensures tags == TagsForSpec(State(), p)
      ensures forall t :: t in tags <==> t in GlobalTags(State(), p) || t in LocalTags(State(), p)
    {
      tags := GlobalTags(State(), p);
      var localTags := LocalTags(State(), p);
      for i := 0 to |localTags|
        invariant tags == MergeTags(GlobalTags(State(), p), localTags[..i])
      {
        assert localTags[..i + 1][..i] == localTags[..i];
        if localTags[i] !in tags {
          tags := tags + [localTags[i]];
        }
      }
      assert localTags[..|localTags|] == localTags;
    }

    /** `get_all_tags`: every tag of the global file, sorted, once each. */
    method AllTags() returns (r: seq<Tag>)
      ensures StrictlySorted(r)
      ensures forall t :: t in r <==> InGlobal(State(), t)
    {
      var m := Entries(global);
      r := [];
      var todo := m.Keys;
      while todo != {}
        invariant todo <= m.Keys
        invariant StrictlySorted(r)
        invariant forall t :: t in r <==> exists p :: p in m && p !in todo && t in m[p]
        decreases todo
      {
        var p :| p in todo;
        var tags := m[p];
        for j := 0 to |tags|
          invariant StrictlySorted(r)
          invariant forall t :: t in r <==> (exists q :: q in m && q !in todo && t in m[q]) || t in tags[..j]
        {
          assert tags[..j + 1] == tags[..j] + [tags[j]];
          r := InsertSorted(r, tags[j]);
        }
        assert tags[..|tags|] == tags;
        todo := todo - {p};
      }
    }
  }
}

/** Properties of the dual store, stated on the functions the
    `TagDatabase` methods are proved against. */
module TagStoreProperties {
  import opened Text
  import opened TagStore

  /** A tag is accepted exactly when it is not blank; an accepted tag ends
      up in both lists of the file, appended at the end when new, and both
      store files are rewritten as decoded JSON even if they were corrupt. */
  lemma AddTagEffect(s: Stores, p: Path, tag: Tag)
    ensures AddTagSpec(s, p, tag).1 <==> !AllSpace(tag)
    ensures !AllSpace(tag) ==>
      var s' := AddTagSpec(s, p, tag).0;
      && s'.global.Json? && LocalFile(s', p.dir).Json?
      && GlobalTags(s', p) == (if tag in GlobalTags(s, p) then GlobalTags(s, p) else GlobalTags(s, p) + [tag])
      && LocalTags(s', p) == (if tag in LocalTags(s, p) then LocalTags(s, p) else LocalTags(s, p) + [tag])
      && tag in TagsForSpec(s', p)
    ensures AllSpace(tag) ==> AddTagSpec(s, p, tag).0 == s
  {
    StripEmptyIffBlank(tag);
  }

  /** Adding touches no other file's entry in either store. */
  lemma AddTagFrame(s: Stores, p: Path, tag: Tag, q: Path)
    requires q != p
    ensures GlobalTags(AddTagSpec(s, p, tag).0, q) == GlobalTags(s, q)
    ensures LocalTags(AddTagSpec(s, p, tag).0, q) == LocalTags(s, q)
    ensures TagsForSpec(AddTagSpec(s, p, tag).0, q) == TagsForSpec(s, q)
  {
  }

  /** Adding never takes a tag away from any file. */
  lemma AddTagKeeps(s: Stores, p: Path, tag: Tag, q: Path, t: Tag)
    requires t in TagsForSpec(s, q)
    ensures t in TagsForSpec(AddTagSpec(s, p, tag).0, q)
  {
    if q != p {
      AddTagFrame(s, p, tag, q);
    } else {
      AddTagEffect(s, p, tag);
    }
  }

  /** Adding the same tag twice leaves the store as adding it once. */
  lemma AddTagIdempotent(s: Stores, p: Path, tag: Tag)
    ensures var s' := AddTagSpec(s, p, tag).0;
      AddTagSpec(s', p, tag).0 == s'
  {
    if Strip(tag) != [] {
      var g := WithTag(Entries(s.global), p, tag);
      var l := WithTag(Entries(LocalFile(s, p.dir)), p.base, tag);
      WithTagTwice(Entries(s.global), p, tag);
      WithTagTwice(Entries(LocalFile(s, p.dir)), p.base, tag);
      var s' := Stores(Json(g), s.locals[p.dir := Json(l)]);
      assert AddTagSpec(s, p, tag).0 == s';
      assert Entries(s'.global) == g;
      assert Entries(LocalFile(s', p.dir)) == l;
      assert AddTagSpec(s', p, tag).0 == Stores(Json(WithTag(g, p, tag)), s'.locals[p.dir := Json(WithTag(l, p.base, tag))]);
      assert s'.locals[p.dir := Json(l)] == s'.locals;
    }
  }

  lemma WithTagTwice<K>(m: map<K, seq<Tag>>, k: K, tag: Tag)
    ensures WithTag(WithTag(m, k, tag), k, tag) == WithTag(m, k, tag)
  {
    var m1 := WithTag(m, k, tag);
    assert Get(m1, k) == m1[k];
    assert m1[k := m1[k]] == m1;
  }

  /** Adding a tag already listed in both readable files changes nothing,
      yet still reports success. */
  lemma AddPresentTag(s: Stores, p: Path, tag: Tag)
    requires !AllSpace(tag)
    requires s.global.Json? && LocalFile(s, p.dir).Json?
    requires tag in GlobalTags(s, p) && tag in LocalTags(s, p)
    ensures AddTagSpec(s, p, tag) == (s, true)
  {
    StripEmptyIffBlank(tag);
    assert Entries(s.global)[p := GlobalTags(s, p)] == Entries(s.global);
    var lf := LocalFile(s, p.dir);
    assert Entries(lf)[p.base := LocalTags(s, p)] == Entries(lf);
    assert s.locals[p.dir := lf] == s.locals;
  }

  lemma WithTagWellFormed<K>(m: map<K, seq<Tag>>, k: K, tag: Tag)
    requires WellFormedMap(m)
    ensures WellFormedMap(WithTag(m, k, tag))
  {
  }

  lemma WithoutTagWellFormed<K>(m: map<K, seq<Tag>>, k: K, tag: Tag)
    requires WellFormedMap(m) && k in m && tag in m[k]
    ensures WellFormedMap(WithoutTag(m, k, tag))
    ensures k !in WithoutTag(m, k, tag) <==> m[k] == [tag]
  {
    RemoveFirstNoDup(m[k], tag);
    if m[k] == [tag] {
      assert RemoveFirst(m[k], tag) == [];
    }
  }

  /** Adding keeps every stored list non-empty and duplicate-free. */
  lemma AddTagWellFormed(s: Stores, p: Path, tag: Tag)
    requires WellFormed(s)
    ensures WellFormed(AddTagSpec(s, p, tag).0)
  {
    WithTagWellFormed(Entries(s.global), p, tag);
    WithTagWellFormed(Entries(LocalFile(s, p.dir)), p.base, tag);
  }

  /** Removing keeps every stored list non-empty and duplicate-free: an
      entry whose list empties is dropped. */
  lemma RemoveTagWellFormed(s: Stores, p: Path, tag: Tag)
    requires WellFormed(s)
    ensures WellFormed(RemoveTagSpec(s, p, tag).0)
  {
    if s.global.Json? && p in s.global.entries && tag in s.global.entries[p] {
      WithoutTagWellFormed(s.global.entries, p, tag);
    }
    var lf := LocalFile(s, p.dir);
    if lf.Json? && p.base in lf.entries && tag in lf.entries[p.base] {
      WithoutTagWellFormed(lf.entries, p.base, tag);
    }
  }

  /** `remove_tag_from_file` reports a change exactly when one of the two
      readable files listed the tag; it never creates a store file and never
      rewrites a corrupt one. */
  lemma RemoveTagReport(s: Stores, p: Path, tag: Tag)
    ensures var (s', updated) := RemoveTagSpec(s, p, tag);
      && (updated <==> tag in GlobalTags(s, p) || tag in LocalTags(s, p))
      && (s'.global.Missing? <==> s.global.Missing?)
      && (s'.global.Corrupt? <==> s.global.Corrupt?)
      && s'.locals.Keys == s.locals.Keys
      && (forall d :: d in s.locals && !s.locals[d].Json? ==> s'.locals[d] == s.locals[d])
  {
  }

  /** On a well-formed store, removing takes the tag out of the file's
      merged list and keeps the other tags. */
  lemma RemoveTagEffect(s: Stores, p: Path, tag: Tag)
    requires WellFormed(s)
    ensures var s' := RemoveTagSpec(s, p, tag).0;
      && tag !in GlobalTags(s', p) && tag !in LocalTags(s', p)
      && forall x :: x in TagsForSpec(s', p) <==> x in TagsForSpec(s, p) && x != tag
  {
    if s.global.Json? && p in s.global.entries && tag in s.global.entries[p] {
      RemoveFirstNoDup(s.global.entries[p], tag);
    }
    var lf := LocalFile(s, p.dir);
    if lf.Json? && p.base in lf.entries && tag in lf.entries[p.base] {
      RemoveFirstNoDup(lf.entries[p.base], tag);
    }
  }

  /** Removing touches no other file's entry in either store. */
  lemma RemoveTagFrame(s: Stores, p: Path, tag: Tag, q: Path)
    requires q != p
    ensures GlobalTags(RemoveTagSpec(s, p, tag).0, q) == GlobalTags(s, q)
    ensures LocalTags(RemoveTagSpec(s, p, tag).0, q) == LocalTags(s, q)
  {
  }

  /** Adding a new tag and then removing it restores both lists of the file;
      when it was the file's only tag, the file's key is gone from both
      stores. */
  lemma AddThenRemove(s: Stores, p: Path, tag: Tag)
    requires WellFormed(s) && !AllSpace(tag)
    requires tag !in GlobalTags(s, p) && tag !in LocalTags(s, p)
    ensures var s1 := AddTagSpec(s, p, tag).0;
      var (s2, updated) := RemoveTagSpec(s1, p, tag);
      && updated
      && GlobalTags(s2, p) == GlobalTags(s, p)
      && LocalTags(s2, p) == LocalTags(s, p)
      && TagsForSpec(s2, p) == TagsForSpec(s, p)
      && (GlobalTags(s, p) == [] ==> p !in Entries(s2.global))
      && (LocalTags(s, p) == [] ==> p.base !in Entries(LocalFile(s2, p.dir)))
  {
    AddTagEffect(s, p, tag);
    var g := GlobalTags(s, p);
    var l := LocalTags(s, p);
    RemoveFirstAppended(g, tag);
    RemoveFirstAppended(l, tag);
  }

  lemma {:induction false} RemoveFirstAppended(l: seq<Tag>, tag: Tag)
    requires tag !in l
    ensures RemoveFirst(l + [tag], tag) == l
  {
    if l != [] {
      assert (l + [tag])[1..] == l[1..] + [tag];
      RemoveFirstAppended(l[1..], tag);
    }
  }

  /** After an accepted add the tag is one `get_all_tags` reports. */
  lemma AddedTagIsListed(s: Stores, p: Path, tag: Tag)
    requires !AllSpace(tag)
    ensures InGlobal(AddTagSpec(s, p, tag).0, tag)
  {
    AddTagEffect(s, p, tag);
    assert p in Entries(AddTagSpec(s, p, tag).0.global);
  }

  /** A tag held only in a local file shows for its file but is not one of
      the tags `get_all_tags` reports. */
  lemma LocalOnlyTag(s: Stores, p: Path, t: Tag)
    requires t in LocalTags(s, p) && !InGlobal(s, t)
    ensures t in TagsForSpec(s, p) && t !in GlobalTags(s, p)
  {
    if p in Entries(s.global) {
      assert t !in Entries(s.global)[p];
    }
  }
}
