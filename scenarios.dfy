/*
 * The workspace unit tests as scenarios against the test engine: each
 * method drives a fresh workspace through the calls of one test and states
 * what the test asserts about the outcome.
 */
module WorkspaceScenarios {
  import opened Wrappers
  import opened Docker
  import opened Workspaces

  /** A fresh workspace has its mode, and its head at the base image; SetImage moves both. */
  method NewWorkspaceExample() returns (mode: string, image: string, head: string, image2: string, head2: string)
    ensures mode == "dockerfile" && image == "ubuntu:trusty" && head == "ubuntu:trusty"
    ensures image2 == "fedora" && head2 == "fedora"
  {
    var docker := new Engine();
    var ws := new Workspace(docker, "dockerfile", "ubuntu:trusty");
    mode, image, head := ws.mode, ws.image, ws.currentImage;
    var _ := ws.SetImage("fedora");
    image2, head2 := ws.image, ws.currentImage;
  }

  /** A fresh workspace's script is its FROM line alone. */
  method EmptySprintExample() returns (lines: seq<string>, err: Option<Error>)
    ensures lines == ["FROM ubuntu:trusty"] && err == None
  {
    var docker := new Engine();
    var ws := new Workspace(docker, "dockerfile", "ubuntu:trusty");
    lines, err := ws.Sprint();
    assert lines == ["FROM " + "ubuntu:trusty"];
    assert "FROM " + "ubuntu:trusty" == "FROM ubuntu:trusty";
  }

  /** An engine whose every step succeeds and whose commands exit with 0, as the tests' mock starts out. */
  predicate Quiet(e: Engine)
    reads e
  {
    !e.failChanges && !e.failCommit && !e.failCreate && !e.failInspect
    && !e.failRemove && !e.failStart && !e.failWait && e.pleaseReturn == 0
  }

  /**
   * One Run on a quiet engine: the command gets the next container, is
   * committed, and the head moves to the image made from that container.
   */
  method RunQuiet(ws: Workspace, command: string) returns (res: EvalResult, err: Option<Error>)
    requires ws.Valid() && Quiet(ws.docker)
    modifies ws`currentImage, ws`history, ws.docker`lastId, ws.docker`created, ws.docker`images
    ensures ws.Valid() && Quiet(ws.docker) && ws.image == old(ws.image)
    ensures ws.history == old(ws.history) + [res] && err == None
    ensures res.command == command && res.code == 0 && !res.deleted && res.baseImage == ws.image
    ensures ws.docker.lastId == old(ws.docker.lastId) + 1 && res.id == ContainerId(ws.docker.lastId)
    ensures res.image == old(ws.currentImage) && res.newImage == ImageId(res.id) && ws.currentImage == res.newImage
  {
    res, err := ws.Run(command);
  }

  /**
   * Three runs in a row: run k gets container ck, is committed as image ik,
   * runs against the image the run before committed, and moves the head to ik.
   */
  method RunChainExample()
    returns (r1: EvalResult, r2: EvalResult, r3: EvalResult, head1: string, head2: string, head3: string,
             e1: Option<Error>, e2: Option<Error>, e3: Option<Error>)
    ensures e1 == None && e2 == None && e3 == None
    ensures r1.command == "cmd1" && r2.command == "cmd2" && r3.command == "cmd3"
    ensures r1.code == 0 && r2.code == 0 && r3.code == 0
    ensures r1.id == "c1" && r2.id == "c2" && r3.id == "c3"
    ensures r1.baseImage == "ubuntu:trusty" && r2.baseImage == "ubuntu:trusty" && r3.baseImage == "ubuntu:trusty"
    ensures r1.image == "ubuntu:trusty" && r2.image == "i1" && r3.image == "i2"
    ensures r1.newImage == "i1" && r2.newImage == "i2" && r3.newImage == "i3"
    ensures head1 == "i1" && head2 == "i2" && head3 == "i3"
    ensures !r1.deleted && !r2.deleted && !r3.deleted
  {
    r1, r2, r3, head1, head2, head3, e1, e2, e3 := RunChain();
    FirstIds();
  }

  /** The three runs of RunChainExample, with ids and images by container number. */
  method RunChain()
    returns (r1: EvalResult, r2: EvalResult, r3: EvalResult, head1: string, head2: string, head3: string,
             e1: Option<Error>, e2: Option<Error>, e3: Option<Error>)
    ensures e1 == None && e2 == None && e3 == None
    ensures r1.command == "cmd1" && r2.command == "cmd2" && r3.command == "cmd3"
    ensures r1.code == 0 && r2.code == 0 && r3.code == 0
    ensures r1.id == ContainerId(1) && r2.id == ContainerId(2) && r3.id == ContainerId(3)
    ensures r1.baseImage == "ubuntu:trusty" && r2.baseImage == "ubuntu:trusty" && r3.baseImage == "ubuntu:trusty"
    ensures r1.image == "ubuntu:trusty" && r2.image == r1.newImage && r3.image == r2.newImage
    ensures r1.newImage == ImageId(r1.id) && r2.newImage == ImageId(r2.id) && r3.newImage == ImageId(r3.id)
    ensures head1 == r1.newImage && head2 == r2.newImage && head3 == r3.newImage
    ensures !r1.deleted && !r2.deleted && !r3.deleted
  {
    var docker := new Engine();
    var ws := new Workspace(docker, "dockerfile", "ubuntu:trusty");
    r1, e1 := RunQuiet(ws, "cmd1");
    head1 := ws.currentImage;
    r2, e2 := RunQuiet(ws, "cmd2");
    head2 := ws.currentImage;
    r3, e3 := RunQuiet(ws, "cmd3");
    head3 := ws.currentImage;
  }

  /** A fresh workspace on a quiet engine after the runs cmd1, cmd2 and cmd3. */
  method ThreeQuietRuns() returns (ws: Workspace, run1: EvalResult, run2: EvalResult, run3: EvalResult)
    ensures fresh(ws) && fresh(ws.docker) && ws.Valid() && Quiet(ws.docker)
    ensures ws.image == "ubuntu:trusty" && ws.docker.removed == []
    ensures ws.history == [run1, run2, run3] && !run1.deleted && !run2.deleted && !run3.deleted
    ensures run1.command == "cmd1" && run1.id == ContainerId(1) && run2.id == ContainerId(2) && run3.id == ContainerId(3)
    ensures run2.image == run1.newImage
  {
    var docker := new Engine();
    ws := new Workspace(docker, "dockerfile", "ubuntu:trusty");
    var e: Option<Error>;
    run1, e := RunQuiet(ws, "cmd1");
    run2, e := RunQuiet(ws, "cmd2");
    run3, e := RunQuiet(ws, "cmd3");
  }

  /** back(2) on three live runs: the second and third are tombstoned and the head moves to the image the second ran on. */
  method BackTwoOfThree(ws: Workspace)
    requires |ws.history| == 3 && !ws.history[0].deleted && !ws.history[1].deleted && !ws.history[2].deleted
    requires ws.Valid()
    modifies ws`currentImage, ws`history, ws.docker`removed
    ensures ws.Valid()
    ensures ws.history == [old(ws.history[0]), old(ws.history[1]).(deleted := true), old(ws.history[2]).(deleted := true)]
    ensures ws.currentImage == old(ws.history[1].image)
  {
    ghost var h0 := ws.history;
    LiveNoneTombstoned(h0);
    var e := ws.Back(2);
    ghost var m :| 0 <= m < |h0| && IsBackTarget(h0, 2, m) && ws.currentImage == h0[m].image;
    BackWorkflowFlags(h0, ws.history);
    BackTargetUnique(h0, 2, m, 1);
  }

  /** The ids of the first three containers, as the unit tests spell them. */
  lemma FirstThreeIds(r1: EvalResult, r2: EvalResult, r3: EvalResult)
    requires r1.id == ContainerId(1) && r2.id == ContainerId(2) && r3.id == ContainerId(3)
    ensures Ids([r1, r2, r3]) == ["c1", "c2", "c3"]
  {
    FirstIds();
    assert Ids([r1, r2, r3]) == [r1.id, r2.id, r3.id];
  }

  /**
   * Three runs, then a reset and a second reset: the first removes the three
   * containers without error and tombstones every entry; the second finds
   * nothing left to remove.
   */
  method ResetTwiceExample() returns (first: seq<ResetResult>, second: seq<ResetResult>, removed: seq<string>, allDeleted: bool)
    ensures |first| == 3 && forall k :: 0 <= k < |first| ==> first[k].err == None
    ensures second == [] && allDeleted
    ensures removed == ["c1", "c2", "c3"]
  {
    var ws, r1, r2, r3 := ThreeQuietRuns();
    ghost var h0 := ws.history;
    first, second := ResetTwice(ws);
    ResetResultsMeaning(h0, false);
    allDeleted := forall j | 0 <= j < |ws.history| :: ws.history[j].deleted;
    FirstThreeIds(r1, r2, r3);
    removed := ws.docker.removed;
  }

  /** Two resets of a history with no tombstone, on an engine whose removals succeed. */
  method ResetTwice(ws: Workspace) returns (first: seq<ResetResult>, second: seq<ResetResult>)
    requires forall j :: 0 <= j < |ws.history| ==> !ws.history[j].deleted
    requires !ws.docker.failRemove
    requires ws.Valid()
    modifies ws`currentImage, ws`history, ws.docker`removed
    ensures ws.Valid()
    ensures first == ResetResults(old(ws.history), false) && second == []
    ensures ws.docker.removed == old(ws.docker.removed) + Ids(old(ws.history))
    ensures forall j :: 0 <= j < |ws.history| ==> ws.history[j].deleted
  {
    ghost var h0 := ws.history;
    LiveNoneTombstoned(h0);
    first := ws.Reset();
    ghost var h1 := ws.history;
    second := ws.Reset();
    ResetAfterReset(h0, h1, false);
  }

  /**
   * Three runs, back(2), then a fourth run: the fourth runs against the image
   * the first run committed, the head follows it, the second and third
   * entries are tombstoned, and the script keeps the first and fourth.
   */
  method BackWorkflowRunExample()
    returns (run1: EvalResult, run4: EvalResult, head: string, deleted1: bool, deleted2: bool, lines: seq<string>)
    ensures run4.image == run1.newImage && head == run4.newImage
    ensures deleted1 && deleted2
    ensures lines == ["FROM ubuntu:trusty", "RUN cmd1", "RUN cmd4"]
  {
    var ws, run2, run3;
    ws, run1, run2, run3 := ThreeQuietRuns();
    BackTwoOfThree(ws);
    ghost var h := ws.history;
    var e;
    run4, e := RunQuiet(ws, "cmd4");
    head := ws.currentImage;
    deleted1, deleted2 := ws.history[1].deleted, ws.history[2].deleted;
    lines, e := ws.Sprint();
    BackWorkflowScript("ubuntu:trusty", run1, h, run4);
    assert "FROM " + "ubuntu:trusty" == "FROM ubuntu:trusty";
    assert "RUN " + "cmd1" == "RUN cmd1" && "RUN " + "cmd4" == "RUN cmd4";
  }
}
