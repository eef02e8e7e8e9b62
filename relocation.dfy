/** Moving and renaming files while keeping their tags: the tags are read,
    removed from the old path, the file system is asked to move the file,
    and the tags are added under the new path only when every move
    succeeded. What the file system does with each file is an input. */
module Relocation {
  import opened Text
  import opened TagStore
  import opened TagStoreProperties

  /** What the file system did with one file: moved it, returned without
      error but left nothing at the target, or raised an exception. */
  datatype Outcome = Done | NotAtTarget | Raised

  /** `for tag in tags: remove_tag_from_file(p, tag)`. */
  function StripTags(s: Stores, p: Path, tags: seq<Tag>): Stores {
    if tags == [] then s
    else RemoveTagSpec(StripTags(s, p, tags[..|tags| - 1]), p, tags[|tags| - 1]).0
  }

  /** `for tag in tags: add_tag_to_file(p, tag)`. */
  function ReapplyTags(s: Stores, p: Path, tags: seq<Tag>): Stores {
    if tags == [] then s
    else AddTagSpec(ReapplyTags(s, p, tags[..|tags| - 1]), p, tags[|tags| - 1]).0
  }

  /** Removing a list of tags from a file leaves it the tags outside the
      list and touches no other file. */
  lemma {:induction false} StripTagsEffect(s: Stores, p: Path, tags: seq<Tag>)
    requires WellFormed(s)
    ensures WellFormed(StripTags(s, p, tags))
    ensures forall x :: x in TagsForSpec(StripTags(s, p, tags), p) <==> x in TagsForSpec(s, p) && x !in tags
    ensures forall q :: q != p ==> GlobalTags(StripTags(s, p, tags), q) == GlobalTags(s, q)
    ensures forall q :: q != p ==> LocalTags(StripTags(s, p, tags), q) == LocalTags(s, q)
    ensures forall q :: q != p ==> TagsForSpec(StripTags(s, p, tags), q) == TagsForSpec(s, q)
  {
    if tags != [] {
      var init := tags[..|tags| - 1];
      var last := tags[|tags| - 1];
      StripTagsEffect(s, p, init);
      var u := StripTags(s, p, init);
      RemoveTagWellFormed(u, p, last);
      RemoveTagEffect(u, p, last);
      forall q | q != p {
        RemoveTagFrame(u, p, last, q);
      }
      assert forall x :: x in tags <==> x in init || x == last;
    }
  }

  /** Removing tags from one file leaves every other file's tags alone. */
  lemma {:induction false} StripTagsFrame(s: Stores, p: Path, tags: seq<Tag>, q: Path)
    requires q != p
    ensures GlobalTags(StripTags(s, p, tags), q) == GlobalTags(s, q)
    ensures LocalTags(StripTags(s, p, tags), q) == LocalTags(s, q)
  {
    if tags != [] {
      StripTagsFrame(s, p, tags[..|tags| - 1], q);
      RemoveTagFrame(StripTags(s, p, tags[..|tags| - 1]), p, tags[|tags| - 1], q);
    }
  }

  lemma EmptyOrHasFirst(r: seq<Tag>)
    ensures r == [] || r[0] in r
  {
  }

  /** Removing every tag a file has leaves it none. */
  lemma StripAll(s: Stores, p: Path)
    requires WellFormed(s)
    ensures TagsForSpec(StripTags(s, p, TagsForSpec(s, p)), p) == []
  {
    StripTagsEffect(s, p, TagsForSpec(s, p));
    EmptyOrHasFirst(TagsForSpec(StripTags(s, p, TagsForSpec(s, p)), p));
  }

  /** Adding a list of tags to a file gives it every non-blank one, takes
      nothing from any file and touches no other file. */
  lemma {:induction false} ReapplyTagsEffect(s: Stores, p: Path, tags: seq<Tag>)
    ensures forall t :: t in tags && !AllSpace(t) ==> t in TagsForSpec(ReapplyTags(s, p, tags), p)
    ensures forall q, x :: x in TagsForSpec(s, q) ==> x in TagsForSpec(ReapplyTags(s, p, tags), q)
    ensures forall q :: q != p ==> TagsForSpec(ReapplyTags(s, p, tags), q) == TagsForSpec(s, q)
  {
    if tags != [] {
      var init := tags[..|tags| - 1];
      var last := tags[|tags| - 1];
      ReapplyTagsEffect(s, p, init);
      var u := ReapplyTags(s, p, init);
      AddTagEffect(u, p, last);
      forall q, x | x in TagsForSpec(u, q) ensures x in TagsForSpec(AddTagSpec(u, p, last).0, q) {
        AddTagKeeps(u, p, last, q, x);
      }
      forall q | q != p ensures TagsForSpec(AddTagSpec(u, p, last).0, q) == TagsForSpec(u, q) {
        AddTagFrame(u, p, last, q);
      }
      assert forall x :: x in tags <==> x in init || x == last;
    }
  }

  /** `tags_to_reapply`: a dictionary from new path to the tags to put
      back, with its keys in insertion order. */
  datatype Pending = Pending(order: seq<Path>, tags: map<Path, seq<Tag>>)

  predicate PendingValid(d: Pending) {
    && (forall k :: k in d.order ==> k in d.tags)
    && (forall k :: k in d.tags ==> k in d.order)
    && (forall i, j :: 0 <= i < j < |d.order| ==> d.order[i] != d.order[j])
  }

  /** `tags_to_reapply[k] = v`: a new key goes last, an existing one keeps
      its place and gets the new value. */
  function Assign(d: Pending, k: Path, v: seq<Tag>): (r: Pending)
    requires PendingValid(d)
    ensures PendingValid(r)
    ensures r.tags == d.tags[k := v]
  {
    if k in d.tags then Pending(d.order, d.tags[k := v]) else Pending(d.order + [k], d.tags[k := v])
  }

  /** `for new_path, tags in tags_to_reapply.items(): ...`. */
  function ReapplyPending(s: Stores, order: seq<Path>, tags: map<Path, seq<Tag>>): Stores
    requires forall k :: k in order ==> k in tags
  {
    if order == [] then s
    else
      var last := order[|order| - 1];
      ReapplyTags(ReapplyPending(s, order[..|order| - 1], tags), last, tags[last])
  }

  /** Putting the pending tags back gives every listed path every non-blank
      tag listed for it. */
  lemma {:induction false} ReapplyPendingEffect(s: Stores, order: seq<Path>, tags: map<Path, seq<Tag>>)
    requires forall k :: k in order ==> k in tags
    ensures forall k, t :: k in order && t in tags[k] && !AllSpace(t) ==> t in TagsForSpec(ReapplyPending(s, order, tags), k)
    ensures forall q, x :: x in TagsForSpec(s, q) ==> x in TagsForSpec(ReapplyPending(s, order, tags), q)
  {
    if order != [] {
      var init := order[..|order| - 1];
      var last := order[|order| - 1];
      ReapplyPendingEffect(s, init, tags);
      var u := ReapplyPending(s, init, tags);
      ReapplyTagsEffect(u, last, tags[last]);
      assert forall k :: k in order <==> k in init || k == last;
    }
  }

  /** The state `move_files` carries through its loop. */
  datatype MoveState = MoveState(stores: Stores, pending: Pending, ok: bool)

  /** One pass of the loop: read the file's tags, remember them under the
      new path, remove them from the old one, then ask the file system. */
  function MoveOne(m: MoveState, src: Path, destination: string, outcome: Outcome): MoveState
    requires PendingValid(m.pending)
  {
    var tags := TagsForSpec(m.stores, src);
    var pending := if tags != [] then Assign(m.pending, Path(destination, src.base), tags) else m.pending;
    MoveState(StripTags(m.stores, src, tags), pending, m.ok && outcome == Done)
  }

  /** The loop of `move_files` over the first files. */
  function MovePhase(s: Stores, srcs: seq<Path>, destination: string, outcomes: seq<Outcome>): (m: MoveState)
    requires |outcomes| == |srcs|
    ensures PendingValid(m.pending)
  {
    if srcs == [] then MoveState(s, Pending([], map[]), true)
    else
      var n := |srcs| - 1;
      MoveOne(MovePhase(s, srcs[..n], destination, outcomes[..n]), srcs[n], destination, outcomes[n])
  }

  /** `move_files(file_paths, destination)`: the stores afterwards and
      whether every move succeeded (the tags go back only then). */
  function MoveFilesSpec(s: Stores, srcs: seq<Path>, destination: string, outcomes: seq<Outcome>): (Stores, bool)
    requires |outcomes| == |srcs|
  {
    var m := MovePhase(s, srcs, destination, outcomes);
    if m.ok then (ReapplyPending(m.stores, m.pending.order, m.pending.tags), true) else (m.stores, false)
  }

  /** No file has a tag in `u` that it did not have in `s`. */
  ghost predicate NoGain(s: Stores, u: Stores) {
    forall q, x :: x in TagsForSpec(u, q) ==> x in TagsForSpec(s, q)
  }

  /** Every file of `done` is without tags in `u`. */
  ghost predicate Emptied(u: Stores, done: seq<Path>) {
    forall i :: 0 <= i < |done| ==> TagsForSpec(u, done[i]) == []
  }

  /** What the loop has done by the time it has passed `done`. */
  ghost predicate Stripped(s: Stores, u: Stores, done: seq<Path>) {
    WellFormed(u) && NoGain(s, u) && Emptied(u, done)
  }

  /** One pass of the loop strips its file and keeps the files already
      stripped stripped. */
  lemma StripStep(s: Stores, u: Stores, done: seq<Path>, src: Path)
    requires Stripped(s, u, done)
    ensures Stripped(s, StripTags(u, src, TagsForSpec(u, src)), done + [src])
  {
    var r := StripTags(u, src, TagsForSpec(u, src));
    StripTagsEffect(u, src, TagsForSpec(u, src));
    StripAll(u, src);
    forall q, x | x in TagsForSpec(r, q) ensures x in TagsForSpec(s, q) {
      if q != src {
        assert TagsForSpec(r, q) == TagsForSpec(u, q);
      }
    }
    forall i | 0 <= i < |done + [src]| ensures TagsForSpec(r, (done + [src])[i]) == [] {
      if i < |done| && done[i] != src {
        assert TagsForSpec(r, done[i]) == TagsForSpec(u, done[i]);
      }
    }
  }

  /** Whatever the outcomes, the loop leaves every file of the batch without
      tags and gives no file a tag it did not have. */
  lemma {:induction false} MovePhaseStrips(s: Stores, srcs: seq<Path>, destination: string, outcomes: seq<Outcome>)
    requires WellFormed(s) && |outcomes| == |srcs|
    ensures Stripped(s, MovePhase(s, srcs, destination, outcomes).stores, srcs)
  {
    if srcs != [] {
      var n := |srcs| - 1;
      var m := MovePhase(s, srcs[..n], destination, outcomes[..n]);
      MovePhaseStrips(s, srcs[..n], destination, outcomes[..n]);
      assert MovePhase(s, srcs, destination, outcomes) == MoveOne(m, srcs[n], destination, outcomes[n]);
      MoveOneStores(m, srcs[n], destination, outcomes[n]);
      assert srcs[..n] + [srcs[n]] == srcs;
      StripStep(s, m.stores, srcs[..n], srcs[n]);
    }
  }

  /** Every move succeeded. */
  predicate AllDone(outcomes: seq<Outcome>) {
    forall i :: 0 <= i < |outcomes| ==> outcomes[i] == Done
  }

  /** The loop's flag stays set exactly when every move succeeded. */
  lemma {:induction false} MovePhaseOk(s: Stores, srcs: seq<Path>, destination: string, outcomes: seq<Outcome>)
    requires |outcomes| == |srcs|
    ensures MovePhase(s, srcs, destination, outcomes).ok <==> AllDone(outcomes)
  {
    if srcs != [] {
      var n := |srcs| - 1;
      var m := MovePhase(s, srcs[..n], destination, outcomes[..n]);
      MovePhaseOk(s, srcs[..n], destination, outcomes[..n]);
      assert MovePhase(s, srcs, destination, outcomes) == MoveOne(m, srcs[n], destination, outcomes[n]);
      MoveOneOk(m, srcs[n], destination, outcomes[n]);
      AllDoneStep(outcomes);
    }
  }

  /** One pass strips the file it moves. */
  lemma MoveOneStores(m: MoveState, src: Path, destination: string, outcome: Outcome)
    requires PendingValid(m.pending)
    ensures MoveOne(m, src, destination, outcome).stores == StripTags(m.stores, src, TagsForSpec(m.stores, src))
  {
  }

  /** One pass keeps the flag set exactly when its move succeeded. */
  lemma MoveOneOk(m: MoveState, src: Path, destination: string, outcome: Outcome)
    requires PendingValid(m.pending)
    ensures MoveOne(m, src, destination, outcome).ok == (m.ok && outcome == Done)
  {
  }

  lemma AllDoneStep(outcomes: seq<Outcome>)
    requires outcomes != []
    ensures AllDone(outcomes) <==> AllDone(outcomes[..|outcomes| - 1]) && outcomes[|outcomes| - 1] == Done
  {
  }

  /** The loop leaves the files outside the batch alone. */
  lemma {:induction false} MovePhaseFrame(s: Stores, srcs: seq<Path>, destination: string, outcomes: seq<Outcome>, q: Path)
    requires |outcomes| == |srcs| && q !in srcs
    ensures var m := MovePhase(s, srcs, destination, outcomes);
      GlobalTags(m.stores, q) == GlobalTags(s, q) && LocalTags(m.stores, q) == LocalTags(s, q)
  {
    if srcs != [] {
      var n := |srcs| - 1;
      assert q !in srcs[..n];
      MovePhaseFrame(s, srcs[..n], destination, outcomes[..n], q);
      var u := MovePhase(s, srcs[..n], destination, outcomes[..n]).stores;
      StripTagsFrame(u, srcs[n], TagsForSpec(u, srcs[n]), q);
    }
  }

  /** No two of the files share a name, so no two land on the same path. */
  predicate DistinctNames(srcs: seq<Path>) {
    forall i, j :: 0 <= i < j < |srcs| ==> srcs[i].base != srcs[j].base
  }

  /** The tags the loop remembers for `srcs[i]`: its tags before the move,
      under its new path. */
  ghost predicate Captured(s: Stores, pending: Pending, srcs: seq<Path>, destination: string) {
    forall i :: 0 <= i < |srcs| && TagsForSpec(s, srcs[i]) != [] ==>
      Path(destination, srcs[i].base) in pending.tags
      && pending.tags[Path(destination, srcs[i].base)] == TagsForSpec(s, srcs[i])
  }

  /** With distinct names, the loop records for each tagged file exactly
      the tags it had before, under its new path. */
  lemma {:induction false} MovePhaseCaptures(s: Stores, srcs: seq<Path>, destination: string, outcomes: seq<Outcome>)
    requires |outcomes| == |srcs| && DistinctNames(srcs)
    ensures Captured(s, MovePhase(s, srcs, destination, outcomes).pending, srcs, destination)
  {
    if srcs != [] {
      var n := |srcs| - 1;
      var init := srcs[..n];
      assert DistinctNames(init);
      MovePhaseCaptures(s, init, destination, outcomes[..n]);
      var m := MovePhase(s, init, destination, outcomes[..n]);
      var src := srcs[n];
      assert src !in init by {
        forall i | 0 <= i < n ensures init[i] != src {
          assert init[i].base == srcs[i].base != src.base;
        }
      }
      MovePhaseFrame(s, init, destination, outcomes[..n], src);
      assert TagsForSpec(m.stores, src) == TagsForSpec(s, src);
      CaptureStep(s, m.pending, srcs, destination, TagsForSpec(s, src));
    }
  }

  /** Remembering the last file's tags under its new path keeps what was
      remembered for the files before it, whose names differ. */
  lemma CaptureStep(s: Stores, pending: Pending, srcs: seq<Path>, destination: string, tags: seq<Tag>)
    requires srcs != [] && PendingValid(pending) && DistinctNames(srcs)
    requires Captured(s, pending, srcs[..|srcs| - 1], destination)
    requires tags == TagsForSpec(s, srcs[|srcs| - 1])
    ensures Captured(s, if tags != [] then Assign(pending, Path(destination, srcs[|srcs| - 1].base), tags) else pending, srcs, destination)
  {
    var n := |srcs| - 1;
    var p := if tags != [] then Assign(pending, Path(destination, srcs[n].base), tags) else pending;
    forall i | 0 <= i < |srcs| && TagsForSpec(s, srcs[i]) != []
      ensures Path(destination, srcs[i].base) in p.tags && p.tags[Path(destination, srcs[i].base)] == TagsForSpec(s, srcs[i])
    {
      if i < n {
        assert srcs[..n][i] == srcs[i];
        assert srcs[i].base != srcs[n].base;
      }
    }
  }

  /** When every move succeeds, every file's non-blank tags are on its new
      path afterwards. */
  lemma MoveKeepsTags(s: Stores, srcs: seq<Path>, destination: string, outcomes: seq<Outcome>)
    requires |outcomes| == |srcs| && DistinctNames(srcs)
    requires AllDone(outcomes)
    ensures MoveFilesSpec(s, srcs, destination, outcomes).1
    ensures forall i, t :: 0 <= i < |srcs| && t in TagsForSpec(s, srcs[i]) && !AllSpace(t) ==>
      t in TagsForSpec(MoveFilesSpec(s, srcs, destination, outcomes).0, Path(destination, srcs[i].base))
  {
    MovePhaseOk(s, srcs, destination, outcomes);
    MovePhaseCaptures(s, srcs, destination, outcomes);
    var m := MovePhase(s, srcs, destination, outcomes);
    ReapplyPendingEffect(m.stores, m.pending.order, m.pending.tags);
  }

  /** The new paths of the batch, in batch order. */
  function Targets(srcs: seq<Path>, destination: string): (r: seq<Path>)
    ensures |r| == |srcs|
    ensures forall i :: 0 <= i < |srcs| ==> r[i] == Path(destination, srcs[i].base)
  {
    if srcs == [] then []
    else Targets(srcs[..|srcs| - 1], destination) + [Path(destination, srcs[|srcs| - 1].base)]
  }

  /** The loop only remembers new paths of the batch. */
  lemma {:induction false} MovePhaseKeys(s: Stores, srcs: seq<Path>, destination: string, outcomes: seq<Outcome>)
    requires |outcomes| == |srcs|
    ensures forall k :: k in MovePhase(s, srcs, destination, outcomes).pending.order ==> k in Targets(srcs, destination)
  {
    if srcs != [] {
      var n := |srcs| - 1;
      MovePhaseKeys(s, srcs[..n], destination, outcomes[..n]);
      var m := MovePhase(s, srcs[..n], destination, outcomes[..n]);
      assert MovePhase(s, srcs, destination, outcomes) == MoveOne(m, srcs[n], destination, outcomes[n]);
      assert Targets(srcs, destination) == Targets(srcs[..n], destination) + [Path(destination, srcs[n].base)];
    }
  }

  /** Putting the pending tags back touches no path outside `order`. */
  lemma {:induction false} ReapplyPendingFrame(s: Stores, order: seq<Path>, tags: map<Path, seq<Tag>>, q: Path)
    requires forall k :: k in order ==> k in tags
    requires q !in order
    ensures TagsForSpec(ReapplyPending(s, order, tags), q) == TagsForSpec(s, q)
  {
    if order != [] {
      var init := order[..|order| - 1];
      ReapplyPendingFrame(s, init, tags, q);
      ReapplyTagsEffect(ReapplyPending(s, init, tags), order[|order| - 1], tags[order[|order| - 1]]);
    }
  }

  /** When every move succeeds, a moved file whose old path is not a new
      path of the batch ends without tags, and a file outside the batch
      keeps its tags. */
  lemma MoveSuccessFrame(s: Stores, srcs: seq<Path>, destination: string, outcomes: seq<Outcome>)
    requires WellFormed(s) && |outcomes| == |srcs|
    requires AllDone(outcomes)
    ensures forall i :: 0 <= i < |srcs| && srcs[i] !in Targets(srcs, destination) ==>
      TagsForSpec(MoveFilesSpec(s, srcs, destination, outcomes).0, srcs[i]) == []
    ensures forall q :: q !in srcs && q !in Targets(srcs, destination) ==>
      TagsForSpec(MoveFilesSpec(s, srcs, destination, outcomes).0, q) == TagsForSpec(s, q)
  {
    MovePhaseOk(s, srcs, destination, outcomes);
    MovePhaseStrips(s, srcs, destination, outcomes);
    MovePhaseKeys(s, srcs, destination, outcomes);
    var m := MovePhase(s, srcs, destination, outcomes);
    forall i | 0 <= i < |srcs| && srcs[i] !in Targets(srcs, destination)
      ensures TagsForSpec(MoveFilesSpec(s, srcs, destination, outcomes).0, srcs[i]) == []
    {
      ReapplyPendingFrame(m.stores, m.pending.order, m.pending.tags, srcs[i]);
    }
    forall q | q !in srcs && q !in Targets(srcs, destination)
      ensures TagsForSpec(MoveFilesSpec(s, srcs, destination, outcomes).0, q) == TagsForSpec(s, q)
    {
      MovePhaseFrame(s, srcs, destination, outcomes, q);
      ReapplyPendingFrame(m.stores, m.pending.order, m.pending.tags, q);
    }
  }

  /** When any move fails, no tag goes back: every file of the batch, moved
      or not, ends without tags, and no file gains one. */
  lemma MoveFailureDropsTags(s: Stores, srcs: seq<Path>, destination: string, outcomes: seq<Outcome>)
    requires WellFormed(s) && |outcomes| == |srcs|
    requires !AllDone(outcomes)
    ensures !MoveFilesSpec(s, srcs, destination, outcomes).1
    ensures forall i :: 0 <= i < |srcs| ==> TagsForSpec(MoveFilesSpec(s, srcs, destination, outcomes).0, srcs[i]) == []
    ensures forall q, x :: x in TagsForSpec(MoveFilesSpec(s, srcs, destination, outcomes).0, q) ==> x in TagsForSpec(s, q)
  {
    MovePhaseOk(s, srcs, destination, outcomes);
    MovePhaseStrips(s, srcs, destination, outcomes);
  }

  /** `for tag in tags: remove_tag_from_file(p, tag)`. */
  method RemoveEach(db: TagDatabase, p: Path, tags: seq<Tag>)
    modifies db
    ensures db.State() == StripTags(old(db.State()), p, tags)
  {
    for i := 0 to |tags|
      invariant db.State() == StripTags(old(db.State()), p, tags[..i])
    {
      var _ := db.RemoveTag(p, tags[i]);
      assert tags[..i + 1][..i] == tags[..i];
    }
    assert tags[..|tags|] == tags;
  }

  lemma ReapplyStep(s: Stores, p: Path, tags: seq<Tag>, i: nat)
    requires i < |tags|
    ensures ReapplyTags(s, p, tags[..i + 1]) == AddTagSpec(ReapplyTags(s, p, tags[..i]), p, tags[i]).0
  {
    assert tags[..i + 1][..i] == tags[..i];
  }

  /** `for tag in tags: add_tag_to_file(p, tag)`. */
  method AddEach(db: TagDatabase, p: Path, tags: seq<Tag>)
    modifies db
    ensures db.State() == ReapplyTags(old(db.State()), p, tags)
  {
    for i := 0 to |tags|
      invariant db.State() == ReapplyTags(old(db.State()), p, tags[..i])
    {
      ReapplyStep(old(db.State()), p, tags, i);
      var _ := db.AddTag(p, tags[i]);
    }
    assert tags[..|tags|] == tags;
  }

  /** One pass of the loop of `move_files`. */
  method MoveOneFile(db: TagDatabase, pending: Pending, ok: bool, src: Path, destination: string, outcome: Outcome)
    returns (pending': Pending, ok': bool)
    requires PendingValid(pending)
    modifies db
    ensures MoveState(db.State(), pending', ok') == MoveOne(MoveState(old(db.State()), pending, ok), src, destination, outcome)
  {
    var tags := db.TagsFor(src);
    pending' := pending;
    if tags != [] {
      pending' := Assign(pending, Path(destination, src.base), tags);
      RemoveEach(db, src, tags);
    }
    ok' := ok && outcome == Done;
  }

  /** The second loop of `move_files`: every remembered path gets its tags
      back, in the order the paths were first remembered. */
  method ReapplyAll(db: TagDatabase, order: seq<Path>, tags: map<Path, seq<Tag>>)
    requires forall k :: k in order ==> k in tags
    modifies db
    ensures db.State() == ReapplyPending(old(db.State()), order, tags)
  {
    for j := 0 to |order|
      invariant db.State() == ReapplyPending(old(db.State()), order[..j], tags)
    {
      assert order[..j + 1][..j] == order[..j];
      AddEach(db, order[j], tags[order[j]]);
    }
    assert order[..|order|] == order;
  }

  /** The loop over the first `i + 1` files is one more pass after the loop
      over the first `i`. */
  lemma MovePhaseStep(s: Stores, srcs: seq<Path>, destination: string, outcomes: seq<Outcome>, i: nat)
    requires |outcomes| == |srcs| && i < |srcs|
    ensures MovePhase(s, srcs[..i + 1], destination, outcomes[..i + 1])
      == MoveOne(MovePhase(s, srcs[..i], destination, outcomes[..i]), srcs[i], destination, outcomes[i])
  {
    assert srcs[..i + 1][..i] == srcs[..i] && outcomes[..i + 1][..i] == outcomes[..i];
  }

  /** `move_files(file_paths, destination_directory)`, with `outcomes[i]`
      what the file system did with `srcs[i]`. */
  method MoveFiles(db: TagDatabase, srcs: seq<Path>, destination: string, outcomes: seq<Outcome>)
    returns (success: bool)
    requires |outcomes| == |srcs|
    modifies db
    ensures (db.State(), success) == MoveFilesSpec(old(db.State()), srcs, destination, outcomes)
  {
    var pending := Pending([], map[]);
    success := true;
    for i := 0 to |srcs|
      invariant MovePhase(old(db.State()), srcs[..i], destination, outcomes[..i]) == MoveState(db.State(), pending, success)
    {
      MovePhaseStep(old(db.State()), srcs, destination, outcomes, i);
      pending, success := MoveOneFile(db, pending, success, srcs[i], destination, outcomes[i]);
    }
    assert srcs[..|srcs|] == srcs && outcomes[..|srcs|] == outcomes;
    if success {
      ReapplyAll(db, pending.order, pending.tags);
    }
  }

  /** What `rename_selected_file` leaves behind: the stores, whether it
      reports success, and whether it asked the file system to rename. */
  datatype RenameResult = RenameResult(stores: Stores, success: bool, attempted: bool)

  /** `rename_selected_file(p, newName)` as written: the new path is bound
      only inside `if original_tags:`, so for a file without tags the call
      `os.rename(file_path, new_file_path)` raises `UnboundLocalError`,
      which the `except` turns into a failure before anything is renamed. */
  function RenameAsWritten(s: Stores, p: Path, newName: string, outcome: Outcome): (r: RenameResult)
    ensures r.attempted <==> TagsForSpec(s, p) != []
    ensures r.success <==> TagsForSpec(s, p) != [] && outcome == Done
    ensures TagsForSpec(s, p) == [] ==> r.stores == s
  {
    var tags := TagsForSpec(s, p);
    if tags == [] then RenameResult(s, false, false)
    else
      var stripped := StripTags(s, p, tags);
      if outcome == Done then RenameResult(ReapplyTags(stripped, Path(p.dir, newName), tags), true, true)
      else RenameResult(stripped, false, true)
  }

  /** A file without tags cannot be renamed as written, even when the file
      system would rename it. */
  lemma UntaggedRenameFails(s: Stores, p: Path, newName: string, outcome: Outcome)
    requires TagsForSpec(s, p) == []
    ensures RenameAsWritten(s, p, newName, outcome) == RenameResult(s, false, false)
    ensures Rename(s, p, newName, Done).success
  {
  }

  /** `rename_selected_file` with the new path bound before the tags are
      read: the file system is always asked, and the tags move with the
      file when it is renamed. */
  function Rename(s: Stores, p: Path, newName: string, outcome: Outcome): (r: RenameResult)
    ensures r.attempted
    ensures r.success <==> outcome == Done
    ensures TagsForSpec(s, p) == [] ==> r.stores == s
  {
    var tags := TagsForSpec(s, p);
    var stripped := StripTags(s, p, tags);
    if outcome == Done then RenameResult(ReapplyTags(stripped, Path(p.dir, newName), tags), true, true)
    else RenameResult(stripped, false, true)
  }

  /** The two agree on every tagged file. */
  lemma RenameAgrees(s: Stores, p: Path, newName: string, outcome: Outcome)
    requires TagsForSpec(s, p) != []
    ensures RenameAsWritten(s, p, newName, outcome) == Rename(s, p, newName, outcome)
  {
  }

  /** A successful rename puts every non-blank tag of the file on its new
      path, leaves the old path without tags when the name changed, and
      leaves every other file alone; a failed one leaves the file without
      tags and gives no file a tag. */
  lemma RenameMovesTags(s: Stores, p: Path, newName: string, outcome: Outcome)
    requires WellFormed(s)
    ensures var r := Rename(s, p, newName, outcome);
      && (outcome == Done ==> forall t :: t in TagsForSpec(s, p) && !AllSpace(t) ==> t in TagsForSpec(r.stores, Path(p.dir, newName)))
      && (outcome == Done && newName != p.base ==> TagsForSpec(r.stores, p) == [])
      && (forall q :: q != p && q != Path(p.dir, newName) ==> TagsForSpec(r.stores, q) == TagsForSpec(s, q))
      && (outcome != Done ==> TagsForSpec(r.stores, p) == [] && NoGain(s, r.stores))
  {
    var tags := TagsForSpec(s, p);
    var stripped := StripTags(s, p, tags);
    var target := Path(p.dir, newName);
    StripTagsEffect(s, p, tags);
    StripAll(s, p);
    if outcome == Done {
      ReapplyTagsEffect(stripped, target, tags);
    } else {
      forall q, x | x in TagsForSpec(stripped, q) ensures x in TagsForSpec(s, q) {
        if q != p {
          assert TagsForSpec(stripped, q) == TagsForSpec(s, q);
        }
      }
    }
  }

  /** `rename_selected_file(p, newName)`, with the new path bound first and
      `outcome` what the file system did. */
  method RenameFile(db: TagDatabase, p: Path, newName: string, outcome: Outcome) returns (success: bool)
    modifies db
    ensures var r := Rename(old(db.State()), p, newName, outcome);
      db.State() == r.stores && success == r.success
  {
    var tags := db.TagsFor(p);
    RemoveEach(db, p, tags);
    success := outcome == Done;
    if success {
      AddEach(db, Path(p.dir, newName), tags);
    }
  }
}
