/**
 * The discardable-content protocol of one memory-cache entry
 * (iOS-Caching/Data/DiscardableImage.swift): an optional image payload and
 * an access counter, with begin/end/discard/isDiscarded.
 */
module Discardable {
  import opened Wrappers
  import opened Media

  /** The observable state of one entry: its payload and its access counter. */
  datatype EntryState = EntryState(image: Option<Image>, accessCount: int)
  {
    /** The counter invariant: the access count is never negative. */
    predicate Valid() { accessCount >= 0 }

    /** isContentDiscarded: the payload is gone. */
    predicate Discarded() { image.None? }
  }

  /** The state of a freshly constructed entry. */
  function Fresh(img: Image): EntryState {
    EntryState(Some(img), 0)
  }

  /** beginContentAccess: its result and the state after the call. */
  function Begin(e: EntryState): (bool, EntryState) {
    if e.image.None? then (false, e)
    else (true, e.(accessCount := e.accessCount + 1))
  }

  /** endContentAccess: decrement, but never below zero. */
  function End(e: EntryState): EntryState {
    if e.accessCount > 0 then e.(accessCount := e.accessCount - 1) else e
  }

  /** discardContentIfPossible: drop the payload only when nobody holds it. */
  function DiscardIfPossible(e: EntryState): EntryState {
    if e.accessCount == 0 then e.(image := None) else e
  }

  /** The state-changing calls of the protocol, for reasoning about call sequences. */
  datatype Access = BeginAccess | EndAccess | DiscardAccess

  function Step(e: EntryState, a: Access): EntryState {
    match a
    case BeginAccess => Begin(e).1
    case EndAccess => End(e)
    case DiscardAccess => DiscardIfPossible(e)
  }

  /** The state after performing the calls of `trace` in order. */
  function RunAccesses(e: EntryState, trace: seq<Access>): (r: EntryState)
    ensures e.Valid() ==> r.Valid()
    decreases |trace|
  {
    if trace == [] then e else RunAccesses(Step(e, trace[0]), trace[1..])
  }

  /** The number of endContentAccess calls in a trace. */
  function Ends(trace: seq<Access>): nat
    decreases |trace|
  {
    if trace == [] then 0
    else (if trace[0] == EndAccess then 1 else 0) + Ends(trace[1..])
  }

  /**
   * Discarded is terminal, and no call ever swaps in a different payload:
   * after any sequence of calls the payload is the original one or nil.
   */
  lemma {:induction false} PayloadOnlyDisappears(e: EntryState, trace: seq<Access>)
    ensures RunAccesses(e, trace).image == e.image || RunAccesses(e, trace).Discarded()
    ensures e.Discarded() ==> RunAccesses(e, trace).Discarded()
    decreases |trace|
  {
    if trace != [] {
      var e' := Step(e, trace[0]);
      PayloadOnlyDisappears(e', trace[1..]);
    }
  }

  /**
   * An entry with more outstanding accesses than the trace has
   * endContentAccess calls keeps its payload: no discard can succeed.
   */
  lemma {:induction false} OutstandingAccessKeepsPayload(e: EntryState, trace: seq<Access>)
    requires e.Valid()
    requires Ends(trace) < e.accessCount
    ensures RunAccesses(e, trace).image == e.image
    ensures RunAccesses(e, trace).accessCount > 0
    decreases |trace|
  {
    if trace != [] {
      var e' := Step(e, trace[0]);
      assert e'.image == e.image;
      assert Ends(trace[1..]) < e'.accessCount;
      OutstandingAccessKeepsPayload(e', trace[1..]);
    }
  }

  /** Discarding twice has the same effect as discarding once. */
  lemma DiscardIsIdempotent(e: EntryState)
    ensures DiscardIfPossible(DiscardIfPossible(e)) == DiscardIfPossible(e)
  {
  }

  /**
   * An unmatched beginContentAccess protects a live entry from discard;
   * the matching endContentAccess makes the discard succeed again.
   */
  lemma UnmatchedBeginBlocksDiscard(img: Image)
    ensures Begin(Fresh(img)).0
    ensures DiscardIfPossible(Begin(Fresh(img)).1).image == Some(img)
    ensures DiscardIfPossible(End(Begin(Fresh(img)).1)).Discarded()
    ensures !Begin(DiscardIfPossible(Fresh(img))).0
  {
  }

  /** One cache entry, whose payload and counter are updated in place. */
  class DiscardableImage {
    var image: Option<Image>
    var accessCount: int

    ghost predicate Valid()
      reads this
    {
      State().Valid()
    }

    /** The entry's current state as a value. */
    ghost function State(): EntryState
      reads this
    {
      EntryState(image, accessCount)
    }

    constructor (img: Image)
      ensures Valid()
      ensures image == Some(img) && accessCount == 0
      ensures State() == Fresh(img)
    {
      image := Some(img);
      accessCount := 0;
    }

    /** Fails when the payload is gone; otherwise takes one more access. */
    method BeginContentAccess() returns (ok: bool)
      requires Valid()
      modifies this
      ensures Valid()
      ensures ok <==> old(image).Some?
      ensures image == old(image)
      ensures accessCount == if ok then old(accessCount) + 1 else old(accessCount)
      ensures (ok, State()) == Begin(old(State()))
    {
      if image.None? {
        return false;
      }
      accessCount := accessCount + 1;
      ok := true;
    }

    /** Releases one access; a no-op when none is outstanding. */
    method EndContentAccess()
      requires Valid()
      modifies this
      ensures Valid()
      ensures image == old(image)
      ensures accessCount == if old(accessCount) > 0 then old(accessCount) - 1 else 0
      ensures State() == End(old(State()))
    {
      if accessCount > 0 {
        accessCount := accessCount - 1;
      }
    }

    /** Called under memory pressure: drops the payload when no access is outstanding. */
    method DiscardContentIfPossible()
      requires Valid()
      modifies this
      ensures Valid()
      ensures accessCount == old(accessCount)
      ensures image == if old(accessCount) == 0 then None else old(image)
      ensures State() == DiscardIfPossible(old(State()))
    {
      if accessCount == 0 {
        image := None;
      }
    }

    method IsContentDiscarded() returns (discarded: bool)
      ensures discarded <==> State().Discarded()
    {
      discarded := image.None?;
    }
  }
}
