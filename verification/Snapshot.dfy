/** The answer read from the store, kept until the store is written again.

    `with_snapshot` reads the write count, then takes the lock on the snapshot and
    rereads the store if the snapshot was filed under another count. Other threads
    write the store meanwhile: the document is replaced first and counted after.
    `switch` writes the store and then changes the snapshot in place. */
module Snapshot {
  import opened Wrappers
  import opened NetworkSpace

  datatype Filed = Filed(generation: nat, document: Document)

  predicate IsFresh(kept: Option<Filed>, generation: nat) {
    kept.Some? && kept.value.generation == generation
  }

  function Refiled(kept: Option<Filed>, generation: nat, stored: Document): Filed {
    if IsFresh(kept, generation) then kept.value else Filed(generation, stored)
  }

  function Patched(kept: Option<Filed>, space: Space): Option<Filed> {
    if kept.Some? then Some(kept.value.(document := kept.value.document.(space := space))) else None
  }

  /** The static `SNAPSHOT`. The store's count and document are what the call finds there. */
  class SnapshotCell {
    var kept: Option<Filed>

    constructor ()
      ensures kept == None
    {
      kept := None;
    }

    /** `with_snapshot`, undisturbed. */
    method WithSnapshot(generation: nat, stored: Document) returns (answer: Document)
      modifies this
      ensures kept == Some(Refiled(old(kept), generation, stored)) && answer == kept.value.document
    {
      var isFresh := kept.Some? && kept.value.generation == generation;
      if !isFresh {
        kept := Some(Filed(generation, stored));
      }
      answer := kept.value.document;
    }

    /** `switch` once its write has been tried. */
    method Switch(space: Space)
      modifies this
      ensures kept == Patched(old(kept), space)
    {
      match kept {
        case Some(filed) => kept := Some(filed.(document := filed.document.(space := space)));
        case None =>
      }
    }
  }
}
