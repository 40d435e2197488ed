/**
 * The container engine as the workspace reaches it: the change and result
 * records it produces, and the deterministic in-memory engine used by the
 * tests (ids "c1", "c2", ..., commit ids with the first 'c' replaced by 'i',
 * one failure switch per operation).
 */
module Docker {
  import opened Wrappers
  import opened Text

  /** A filesystem change reported for a container: kind 0 is Modified, 1 Added, 2 Removed. */
  datatype Change = Change(path: string, kind: int)

  /** One attempt to run a command; duration and the captured log are not modelled. */
  datatype EvalResult = EvalResult(
    command: string,
    code: int,
    deleted: bool,
    changes: seq<Change>,
    id: string,         // container id
    baseImage: string,  // the workspace's configured base image at the time
    image: string,      // image the command ran against
    newImage: string)   // image holding the committed changes, "" until committed

  /** The failures a workspace operation can report. */
  datatype Error =
    | NoContainerToCommit
    | AlreadyCommitted
    | NoHistoryThatFarBack
    | EngineFailure(message: string)

  /**
   * The text of each error: the workspace's own three texts, which differ
   * from one another, or the engine's message passed through.
   */
  function Message(e: Error): (r: string)
    ensures e.EngineFailure? ==> r == e.message
    ensures !e.EngineFailure? ==> (r == "No container found to commit" <==> e == NoContainerToCommit)
    ensures !e.EngineFailure? ==> (r == "Container already committed" <==> e == AlreadyCommitted)
    ensures !e.EngineFailure? ==> (r == "no history that far back" <==> e == NoHistoryThatFarBack)
  {
    match e
    case NoContainerToCommit => "No container found to commit"
    case AlreadyCommitted => "Container already committed"
    case NoHistoryThatFarBack => "no history that far back"
    case EngineFailure(m) => m
  }

  /** The error the test engine reports for a failed remove request. */
  const RemoveFailure := EngineFailure("MOCK: Failed to remove container")

  /** The id the engine gives to the n-th container it creates. */
  function ContainerId(n: nat): string
  {
    "c" + NatToString(n)
  }

  /** The id of the image committed from a container. */
  function ImageId(container: string): string
  {
    ReplaceFirst(container, 'c', 'i')
  }

  /** The ids of the first n containers, in creation order. */
  function CreatedIds(n: nat): seq<string>
  {
    seq(n, (k: nat) => ContainerId(k + 1))
  }

  /** Committing the n-th container yields image "i" followed by n. */
  lemma ImageIdOfContainer(n: nat)
    ensures ImageId(ContainerId(n)) == "i" + NatToString(n)
  {
    var s := ContainerId(n);
    assert IndexOf(s, 'c') == 0;
    assert ImageId(s)[1..] == s[1..];
  }

  /** The first four containers and the images committed from them, as the unit tests spell them. */
  lemma FirstIds()
    ensures ContainerId(1) == "c1" && ContainerId(2) == "c2" && ContainerId(3) == "c3" && ContainerId(4) == "c4"
    ensures ImageId("c1") == "i1" && ImageId("c2") == "i2" && ImageId("c3") == "i3" && ImageId("c4") == "i4"
  {
    ImageIdOfContainer(1);
    ImageIdOfContainer(2);
    ImageIdOfContainer(3);
    ImageIdOfContainer(4);
  }

  /** No two containers of one engine share an id. */
  lemma CreatedIdsDistinct(n: nat, a: nat, b: nat)
    requires a < b < n
    ensures CreatedIds(n)[a] != CreatedIds(n)[b]
  {
    if ContainerId(a + 1) == ContainerId(b + 1) {
      assert ContainerId(a + 1)[1..] == NatToString(a + 1);
      assert ContainerId(b + 1)[1..] == NatToString(b + 1);
      NatToStringInjective(a + 1, b + 1);
    }
  }

  /** The test engine: failure switches, the exit code to report, and a log of each kind of call. */
  class Engine {
    var failChanges: bool
    var failCommit: bool
    var failCreate: bool
    var failInspect: bool
    var failRemove: bool
    var failStart: bool
    var failWait: bool
    var pleaseReturn: int
    var lastId: nat
    var created: seq<string>   // containers created, in order
    var images: seq<string>    // images committed, in order
    var removed: seq<string>   // ids passed to a remove request, in order

    ghost predicate Valid()
      reads this
    {
      created == CreatedIds(lastId)
    }

    /** Whether running a command fails on this engine. */
    predicate EvalFails()
      reads this
    {
      failCreate || failStart || failWait || failChanges
    }

    /**
     * What Eval reports and does to the id counter, given the counter's value
     * `before` the call: no container on a create failure, otherwise the next id.
     */
    predicate EvalOutcome(res: EvalResult, err: Option<Error>, before: nat)
      reads this
    {
      && res.id == (if failCreate then "" else ContainerId(before + 1))
      && lastId == (if failCreate then before else before + 1)
      && res.code == (if failCreate || failStart then 0 else pleaseReturn)
      && (err.None? <==> !EvalFails())
    }

    /** An engine with every switch off, exit code 0 and no container yet. */
    constructor ()
      ensures Valid()
      ensures !failChanges && !failCommit && !failCreate && !failInspect
      ensures !failRemove && !failStart && !failWait
      ensures pleaseReturn == 0 && lastId == 0
      ensures created == [] && images == [] && removed == []
    {
      failChanges, failCommit, failCreate, failInspect := false, false, false, false;
      failRemove, failStart, failWait := false, false, false;
      pleaseReturn, lastId := 0, 0;
      created, images, removed := [], [], [];
    }

    /**
     * Runs a command in a new container made from image: create, start, wait,
     * then read the changes, stopping at the first failure. The container is
     * left in place whatever happens; the attach runs in the background and
     * its error is dropped.
     */
    method Eval(command: string, image: string) returns (res: EvalResult, err: Option<Error>)
      requires Valid()
      modifies this`lastId, this`created
      ensures Valid()
      ensures res.command == command && res.image == image
      ensures !res.deleted && res.newImage == "" && res.baseImage == "" && res.changes == []
      ensures EvalOutcome(res, err, old(lastId))
    {
      res := EvalResult(command, 0, false, [], "", "", image, "");
      if failCreate {
        return res, Some(EngineFailure("MOCK: Failed to create container"));
      }
      lastId := lastId + 1;
      var id := ContainerId(lastId);
      created := created + [id];
      res := res.(id := id);
      if failStart {
        return res, Some(EngineFailure("MOCK: Failed to start container"));
      }
      res := res.(code := pleaseReturn);
      if failWait {
        return res, Some(EngineFailure("MOCK: Failed to wait on container"));
      }
      if failChanges {
        return res, Some(EngineFailure("MOCK: Failed to determine changes"));
      }
      err := None;
    }

    /** Snapshots a container into a new image. */
    method Commit(container: string) returns (imageId: string, err: Option<Error>)
      requires Valid()
      modifies this`images
      ensures Valid()
      ensures failCommit ==> imageId == "" && err.Some? && images == old(images)
      ensures !failCommit ==> imageId == ImageId(container) && err == None
      ensures !failCommit ==> images == old(images) + [imageId]
    {
      if failCommit {
        return "", Some(EngineFailure("MOCK: Failed to commit"));
      }
      imageId, err := ImageId(container), None;
      images := images + [imageId];
    }

    /** Asks for a container to be removed; the request is logged whether or not it succeeds. */
    method Remove(container: string) returns (err: Option<Error>)
      requires Valid()
      modifies this`removed
      ensures Valid()
      ensures removed == old(removed) + [container]
      ensures err == (if failRemove then Some(RemoveFailure) else None)
    {
      removed := removed + [container];
      err := if failRemove then Some(RemoveFailure) else None;
    }

    /** Checks that an image exists. */
    method VerifyImage(image: string) returns (err: Option<Error>)
      ensures err.Some? <==> failInspect
    {
      err := if failInspect then Some(EngineFailure("no such image: " + image)) else None;
    }
  }
}
