/** The cleanup guard around a copy: snapshot the local tags, run the block,
    then remove every local tag that was not in the snapshot. The engine's
    local store is seen through its listings (what `images.list()` reports);
    the block is seen through its outcome and the listing it leaves behind. */
module Cleanup {

  /** A local image as the engine lists it: an id and its raw references. */
  datatype LocalImage = LocalImage(id: string, tags: seq<string>)

  /** How the block inside the guard ended. */
  datatype BlockOutcome = Completed | Raised

  /** What a guarded run leaves: the engine remove calls in the order they
      were issued, the local tags that remain, and how the run ends. */
  datatype ContextRun = ContextRun(removed: seq<string>, remaining: set<string>, outcome: BlockOutcome)

  /** The set of every tag on every listed image. */
  function TagSet(store: seq<LocalImage>): set<string>
  {
    set i, t | 0 <= i < |store| && t in store[i].tags :: t
  }

  /** The tags of one image not in the snapshot, in listing order. */
  function NewTags(tags: seq<string>, initial: set<string>): (added: seq<string>)
    ensures forall t :: t in added <==> t in tags && t !in initial
    decreases |tags|
  {
    if |tags| == 0 then []
    else (if tags[0] in initial then [] else [tags[0]]) + NewTags(tags[1..], initial)
  }

  /** The remove calls of the cleanup loop: image by image, tag by tag,
      every tag that is not in the snapshot. */
  function Removals(store: seq<LocalImage>, initial: set<string>): seq<string>
    decreases |store|
  {
    if |store| == 0 then []
    else NewTags(store[0].tags, initial) + Removals(store[1..], initial)
  }

  /** The cleanup removes exactly the listed tags that are not in the
      snapshot: nothing from the snapshot, and nothing new is missed. */
  lemma {:induction false} RemovalsExact(store: seq<LocalImage>, initial: set<string>)
    ensures forall t :: t in Removals(store, initial) <==> t in TagSet(store) && t !in initial
    decreases |store|
  {
    if |store| > 0 {
      RemovalsExact(store[1..], initial);
      assert TagSet(store) == (set t | t in store[0].tags) + TagSet(store[1..]) by {
        forall t | t in TagSet(store)
          ensures t in store[0].tags || t in TagSet(store[1..])
        {
          var i :| 0 <= i < |store| && t in store[i].tags;
          if i > 0 {
            assert store[1..][i - 1] == store[i];
          }
        }
        forall t | t in TagSet(store[1..])
          ensures t in TagSet(store)
        {
          var i :| 0 <= i < |store[1..]| && t in store[1..][i].tags;
          assert store[i + 1] == store[1..][i];
        }
      }
    }
  }

  /** The local tags left once the given tags are removed. */
  function RemoveTags(tags: set<string>, removed: seq<string>): set<string>
  {
    tags - set t | t in removed
  }

  /** `docker_context` (current): the cleanup sits in a `finally`, so it runs
      whether the block completed or raised, and the block's outcome is
      passed on afterwards. It removes exactly the tags that are listed
      after the block but were not in the snapshot, so what remains is the
      part of the final listing that was already there; a block that only
      adds tags leaves the store as it found it. */
  function DockerContext(before: seq<LocalImage>, block: BlockOutcome, after: seq<LocalImage>): (r: ContextRun)
    ensures r.outcome == block
    ensures forall t :: t in r.removed <==> t in TagSet(after) && t !in TagSet(before)
    ensures r.remaining == TagSet(after) * TagSet(before)
    ensures TagSet(before) <= TagSet(after) ==> r.remaining == TagSet(before)
  {
    var initial := TagSet(before);
    var removed := Removals(after, initial);
    RemovalsExact(after, initial);
    ContextRun(removed, RemoveTags(TagSet(after), removed), block)
  }

  /** `docker_context` (legacy): the cleanup follows the `yield` without a
      `finally`, so it runs only when the block completed; a raising block
      leaves every tag it introduced behind. */
  function DockerContextLegacy(before: seq<LocalImage>, block: BlockOutcome, after: seq<LocalImage>): (r: ContextRun)
    ensures r.outcome == block
    ensures block == Raised ==> r.removed == [] && r.remaining == TagSet(after)
    ensures block == Completed ==>
      && (forall t :: t in r.removed <==> t in TagSet(after) && t !in TagSet(before))
      && r.remaining == TagSet(after) * TagSet(before)
  {
    match block
    case Raised => ContextRun([], TagSet(after), Raised)
    case Completed => DockerContext(before, Completed, after)
  }

  /** A copy adds the pulled and re-tagged images to the local store. Under
      the current guard the store ends with exactly the tags it started
      with, whether the copy completed or raised. */
  lemma CopyRestoresStore(before: seq<LocalImage>, added: seq<LocalImage>, block: BlockOutcome)
    ensures DockerContext(before, block, before + added).remaining == TagSet(before)
    ensures DockerContext(before, block, before + added).outcome == block
  {
    forall t | t in TagSet(before)
      ensures t in TagSet(before + added)
    {
      var i :| 0 <= i < |before| && t in before[i].tags;
      assert (before + added)[i] == before[i];
    }
  }

  /** Under the legacy guard, a copy that raised leaves every tag it added
      in the local store, where the current guard removes it. */
  lemma LegacyLeaksOnRaise(before: seq<LocalImage>, added: seq<LocalImage>, t: string)
    requires t in TagSet(added) && t !in TagSet(before)
    ensures t in DockerContextLegacy(before, Raised, before + added).remaining
    ensures t !in DockerContext(before, Raised, before + added).remaining
  {
    var i :| 0 <= i < |added| && t in added[i].tags;
    assert (before + added)[|before| + i] == added[i];
  }
}
