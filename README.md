# cyclops workspace, command parser and log buffer in Dafny

cyclops is an interactive shell for writing Dockerfiles. Each command the user
types runs in a new container made from the current *head* image. `:run`
commits the container, and the head moves to the new image. `:eval` runs the
command without keeping it. `:back n` steps back over the last n kept
commands. `:write` exports the kept commands as a Dockerfile: one `FROM` line,
then one `RUN` line per kept command.

This project models four parts of that program:

- **The workspace** (module `Workspaces`, class `Workspace`). It holds the
  configured base image, the head and an append-only history of attempts.
  Entries are tombstoned (`deleted`), never removed. The *live lineage*
  (`Live`) is the sequence of entries that are not tombstoned. It is what
  `Sprint`/`Write` export, what `Reset` cleans up and what `Back` walks.
- **The container engine** the workspace drives (module `Docker`, class
  `Engine`). It is the deterministic test engine of the repository:
  - container ids are `c1`, `c2`, … in creation order;
  - a commit turns the first `c` of the container id into `i`;
  - each operation has its own failure switch;
  - a configurable exit code is returned.

  The engine also logs the containers it created, the images it committed and
  the remove requests it received, so that the workspace's effects on the
  engine can be stated.
- **The command line helpers of main.go** (module `Commands`):
  - `parseCommand`, modelled by `ParseCommand`;
  - `pruneChanges`, modelled by `PruneChanges` and `Pruned`.
- **The passthrough log buffer** (module `Buffers`). Every write goes to a
  downstream writer and is also captured.

Module `Text` holds the string helpers the core borrows from Go's `fmt` and
`strings`: decimal printing, first-occurrence search and replace, and
substring containment. Its `ParseNat` reads decimal digits back; it serves
only to prove that decimal printing is injective, so that distinct containers
get distinct ids. Module `Wrappers` holds `Option`. Module
`WorkspaceScenarios` replays the workspace unit tests against a fresh engine.

Go's `error` values become `Option<Error>` results. The Go slices the workspace
mutates become `seq` fields that the methods reassign.

Every loop of the core is proved against a specification function:

- `Reset`'s loop is checked against `Live` and `ResetResults`: it removes the
  containers of exactly the live entries, in order.
- `Sprint`'s loop is checked against `ExportLines`, and `Write`'s loop against
  `Render` of those lines.
- `back`'s backward scan is checked against `BackTombstones`/`IsBackTarget`.
  `BackDropsLastLive` then shows that back(n) drops exactly the last n entries
  of the live lineage.
- `pruneChanges`' scan-then-reverse is checked against `Pruned`, which is the
  ordered selection of the surviving indices.

## Model

| member | source | states |
|---|---|---|
| Docker.Engine.constructor | docker_test.go:75-87 | a new test engine has every failure switch off, exit code 0, no container created yet, and empty call logs |
| Docker.Engine.Eval | docker_test.go:112-141 | running a command: a create failure yields no container and code 0; otherwise the next id `c<k>` is taken; a start failure yields code 0; wait and changes failures keep the exit code; an error is reported exactly when one of the four switches is on; the result carries the command and the image, with no changes |
| Docker.Engine.Commit | docker_test.go:96-103 | a commit fails with an empty image id when failCommit is set; otherwise it returns the container id with its first `c` replaced by `i` and logs the image |
| Docker.Engine.Remove | docker_test.go:122-127 | every remove request is logged; it reports the engine's remove error exactly when failRemove is set |
| Docker.Engine.VerifyImage | workspace.go:47-50 | checking an image fails exactly when the engine's inspect switch is on |
| Docker.Message | workspace.go:59-65 | CommitLast's two errors read "No container found to commit" and "Container already committed", and back's (workspace.go:198) "no history that far back"; each of the three texts belongs to one workspace error only, and an engine failure carries the engine's own message |
| Docker.ImageIdOfContainer | docker_test.go:100-102 | committing container `c<n>` yields image `i<n>` |
| Docker.FirstIds | docker_test.go:100-119 | the first four containers are `c1`..`c4` and the images committed from them `i1`..`i4` |
| Docker.CreatedIdsDistinct | docker_test.go:116-119 | no two containers of one engine share an id |
| Text.NatToString | docker_test.go:118 | `%v` of a count is a non-empty string of decimal digits with no leading zero |
| Text.NatToStringRoundTrip | docker_test.go:118 | reading the printed number back gives the number |
| Text.NatToStringInjective | docker_test.go:118 | distinct counts print differently |
| Text.IndexOf | docker_test.go:101 | the first position of a character, or the length when it is absent; every earlier character differs, and it is the length exactly when the character does not occur |
| Text.ReplaceFirst | docker_test.go:101 | `strings.Replace(s, "c", "i", 1)`: same length; only the first occurrence changes, every other character is kept |
| Text.ContainsIffOccurs | main.go:112 | `strings.Contains` holds exactly when the substring occurs at some position |
| Text.ContainsInEmpty | main.go:112 | the empty string contains exactly the empty string, so a Modified last entry is kept unless its path is empty |
| Workspaces.Live | workspace.go:163-167 | the live lineage has only entries that are not tombstoned and is no longer than the history |
| Workspaces.LiveAppend | workspace.go:163-167 | the live lineage of a concatenation is the concatenation of the live lineages |
| Workspaces.LivePrefixStep | workspace.go:149-154 | one more visited entry adds itself to the live lineage exactly when it is live |
| Workspaces.LiveSuffixStep | workspace.go:200-203 | seen from a suffix, the live lineage is the entry, if live, followed by the live lineage of the rest |
| Workspaces.LiveNoneTombstoned | workspace.go:92 | a history of runs with no tombstone is its own live lineage |
| Workspaces.LiveAllTombstoned | workspace.go:153 | a fully tombstoned history has an empty live lineage |
| Workspaces.LiveSuffixMono | workspace.go:200-206 | a longer suffix has at least as many live entries, and one more when its first entry is live |
| Workspaces.LiveSuffixSplit | workspace.go:200-206 | the live entries of a suffix are those of its first part followed by those of the rest, so a longer suffix has exactly its added live entries more |
| Workspaces.BackTargetUnique | workspace.go:207-209 | back(n) can stop at one entry at most |
| Workspaces.BackTargetExists | workspace.go:200-210 | when at least n >= 1 live entries remain, back(n) stops at one of them |
| Workspaces.FlippedIdsSkipSame | workspace.go:204 | an unchanged prefix contributes no remove requests |
| Workspaces.BackStepSkip | workspace.go:201-203 | the scan passes over a tombstoned entry without changing anything |
| Workspaces.BackStepTake | workspace.go:204-206 | tombstoning a live entry before the n-th keeps the scan in the state back(n) prescribes, with that entry's id removed |
| Workspaces.BackSparesPrefix | workspace.go:207-210 | entries before the stopping point keep their tombstone flags |
| Workspaces.BackStop | workspace.go:204-210 | taking the n-th live entry leaves the whole history as back(n) prescribes, with that entry as the stopping point and its id as the last remove request |
| Workspaces.BackStopTombstones | workspace.go:205-209 | the tombstones of a scan stopped at the n-th live entry are exactly those back(n) prescribes |
| Workspaces.BackStopFlipped | workspace.go:204-205 | the stopping entry's id is the last remove request, after those of the entries visited before it |
| Workspaces.BackExhausted | workspace.go:200-211 | a scan that runs off the start has tombstoned every live entry, and there were fewer than n of them (or n < 1) |
| Workspaces.BackKeepsSuffix | workspace.go:200-211 | from any position on, back(n) keeps the live entries that are not among the last n |
| Workspaces.BackKeepStep | workspace.go:201-207 | the per-entry step of that argument, stated on live lineages |
| Workspaces.BackDropsLastLive | workspace.go:194-214 | after back(n) the live lineage is the old one without its last n entries (empty when n < 1 or fewer remain) |
| Workspaces.BackWorkflowExample | workspace_test.go:191-212 | after three runs, back(2) stops at the second run, tombstones the second and third and spares the first; with a fourth run the script is FROM, RUN of the first, RUN of the fourth |
| Workspaces.BackWorkflowFlags | workspace_test.go:199-209 | the history back(2) leaves after three live runs |
| Workspaces.BackWorkflowScript | workspace_test.go:203-211 | the script of that history plus a new run |
| Workspaces.ResetResultsMeaning | workspace.go:147-155 | reset reports one result per live entry, in history order, with its id and with an error exactly when removal fails |
| Workspaces.ResetAfterReset | workspace.go:147-159 | once every entry is tombstoned there is no live entry, so a second reset reports no result and requests no removal |
| Workspaces.ResetResultsSnoc | workspace.go:152 | one more removal appends one result |
| Workspaces.IdsSnoc | workspace.go:151 | one more removal appends that entry's id to the requests |
| Workspaces.ExportLines | workspace.go:161-169 | the script starts with `FROM <base>` and has at most one line more than the history |
| Workspaces.ExportLinesShape | workspace.go:161-169 | the script is `FROM <base>`, then `RUN <command>` for each live entry, in history order, and nothing else |
| Workspaces.Render | workspace.go:179-182 | the file content has at least one character per line and, when there is a line, ends with a newline |
| Workspaces.RenderAppend | workspace.go:180-182 | writing one more line appends it and a newline |
| Workspaces.RenderRoundTrip | workspace.go:174-184 | file content written from lines without newlines splits back into exactly those lines |
| Workspaces.Workspace.constructor | workspace.go:36-45 | a new workspace has the given mode and engine, the head at the base image, and an empty history |
| Workspaces.Workspace.SetImage | workspace.go:47-56 | fails, changing nothing, exactly when the image does not verify; otherwise sets the base image, and the head follows only when it was at the old base |
| Workspaces.Workspace.Commit | workspace.go:186-192 | on success returns the committed image id and moves the head to it; on failure the head stays |
| Workspaces.Workspace.CommitLast | workspace.go:58-80 | empty history: "No container found to commit"; last entry with both image and container: "Container already committed"; no container: its image is returned and the entry revived; otherwise its container is committed, the entry records the new image and is revived, and the head moves; a commit failure changes nothing |
| Workspaces.Workspace.EvalCommand | workspace.go:104-108 | runs against the head and stamps the result with the base image of the moment; the result is live and uncommitted |
| Workspaces.Workspace.Run | workspace.go:83-94 | appends the result, live, whatever happens; exit code 0 and a working commit record the new image and move the head to it; otherwise the head stays and nothing is committed; the run's error is returned unchanged |
| Workspaces.Workspace.Eval | workspace.go:97-102 | appends the result already tombstoned and never commits |
| Workspaces.Workspace.Reset | workspace.go:147-159 | tombstones every entry; asks the engine to remove exactly the live entries' containers, in order; returns their results; moves the head back to the base image |
| Workspaces.Workspace.ResetVisit | workspace.go:149-154 | one iteration of reset's loop: a live entry's container removal is requested and its result (error and id) recorded; the entry ends up tombstoned either way |
| Workspaces.Workspace.Sprint | workspace.go:161-169 | returns the script of the live lineage, never an error |
| Workspaces.Workspace.Write | workspace.go:174-184 | the content written is the script with each line newline-terminated |
| Workspaces.Workspace.ScanBack | workspace.go:195-212 | the backward scan leaves the history as back(n) prescribes, issues remove requests for exactly the entries it tombstoned (latest first), and reports the image of the stopping entry when there is one |
| Workspaces.Workspace.VisitBack | workspace.go:201-210 | one iteration of the scan: skip a tombstoned entry, or remove and tombstone a live one and stop when it is the n-th |
| Workspaces.Workspace.Back | workspace.go:194-214 | n beyond the whole history: "no history that far back" and nothing changes; otherwise entries are tombstoned exactly as back(n) prescribes, their containers are removed, and the head moves to the image the n-th live entry from the end ran against (it stays when there is no such entry) |
| Commands.KeptFrom | main.go:110-119 | the surviving indices from a position on all lie in range |
| Commands.KeptFromSpec | main.go:110-119 | those indices are strictly increasing and are exactly the surviving ones from that position |
| Commands.Select | main.go:107-126 | selecting by indices gives one entry per index |
| Commands.Reverse | main.go:120-124 | reversal keeps the length |
| Commands.ReverseInvolutive | main.go:120-124 | reversing twice gives back the sequence |
| Commands.Pruned | main.go:107-126 | the result has one entry per kept index and holds only entries of the input |
| Commands.PrunedIsOrderedSubsequence | main.go:107-126 | the pruned list is the surviving entries in their original order |
| Commands.PrunedSkipsFirst | main.go:110 | the first change is never returned, so fewer than two changes give none |
| Commands.PrunedKeepsAddedAndRemoved | main.go:115-117 | every Added or Removed change after the first is kept |
| Commands.PrunedModifiedRule | main.go:111-114 | a Modified change after the first is kept exactly when its path does not occur in the path of the change after it (the last is kept unless its path is empty) |
| Commands.CollectedFromReversed | main.go:110-119 | the backward scan collects the surviving changes latest first |
| Commands.PruneChanges | main.go:107-126 | the scan and swap loops return exactly the pruned list |
| Commands.ReverseInPlace | main.go:120-124 | the swap loop reverses the list |
| Commands.PruneExample | main_test.go:62-81 | the unit-test change list loses its leading Modified directory; the other four come out in order |
| Commands.SplitFirstSpace | main.go:135 | `SplitN(s, " ", 2)`: one or two parts; with two, the first has no space and the string is the first part, a space and the rest |
| Commands.ErrorMessage | main.go:23-24 | the parser's two errors read "Invalid command" and "Missing required argument for command", and each text belongs to one error only |
| Commands.SwitchWord | main.go:136-174 | an error result carries no argument; an unknown word is returned as the command with "Invalid command"; a missing argument is reported only when the line had no text after the word; a given argument is passed whole or ignored; the command is empty only for an empty word |
| Commands.ParseCommand | main.go:128-175 | the command is empty exactly for an empty line; only a line starting with ':' can fail, and then with no argument; a missing argument is reported only for a line without a space |
| Commands.SwitchFollowsTable | main.go:136-174 | for every first word and argument the switch does what the table says: no-argument commands drop the argument; required-argument commands fail with "Missing required argument" when it is absent; back defaults to "1"; any other word is returned with "Invalid command" |
| Commands.ParseBareWord | main.go:128-175 | a colon word without a space parses as the table prescribes with no argument |
| Commands.ParseWordWithArg | main.go:128-175 | a colon word, a space and a remainder parse as the table prescribes, with the whole remainder (spaces included) as the argument |
| Commands.SplitUnique | main.go:135 | a line splits at its first space in one way only |
| Commands.ParsePlainLine | main.go:129-134 | an empty line is no command and no error; a line not starting with ':' is evaluated verbatim |
| Commands.ParseExamplesNoArg | main_test.go:19-24 | `:help me` and `:commit this` parse to help and commit with no argument and no error |
| Commands.ParseExamplesPrint | main_test.go:27 | `:print this` parses to print with no argument and no error |
| Commands.ParseExamplesEvalRun | main_test.go:30-36 | `:eval apt-get update` and `:r apt-get update` keep the whole argument |
| Commands.ParseExamplesFromWrite | main_test.go:39-44 | `:f ubuntu:latest` and `:w Dockerfile` pass their argument through |
| Commands.ParseExamplesBare | main.go:139-171 | `:h` is help; `:b` is back with argument "1" |
| Commands.ParseExamplesMissingArg | main_test.go:32-42 | `:e` and `:from` alone fail with the missing-argument error |
| Commands.ParseExamplesOther | main_test.go:47-48 | `:notreal` is returned as is with the invalid-command error; an empty line is empty; a plain line is evaluated |
| Buffers.Latin1 | buffer.go:27 | the bytes of a string whose characters fit in a byte, one per character |
| Buffers.Sink.constructor | buffer_test.go:13 | a fresh downstream writer holds nothing |
| Buffers.Sink.Write | buffer.go:21 | the downstream writer appends what it accepts, or refuses all of it |
| Buffers.Buffer.constructor | buffer.go:16-18 | a new buffer wraps the given writer and has captured nothing |
| Buffers.Buffer.Write | buffer.go:20-24 | forwards p downstream, whatever the writer answers, then captures p; reports len(p) and no error |
| Buffers.Buffer.WriteString | buffer.go:26-31 | the same for the bytes of a string |
| Buffers.Buffer.Bytes | buffer.go:33-35 | the captured bytes are every write so far, in order |
| Buffers.BananaExample | buffer_test.go:10-41 | writing "banana banana" as a string or as bytes reports 13 and no error, and both the buffer and the downstream writer hold exactly those bytes |
| WorkspaceScenarios.NewWorkspaceExample | workspace_test.go:11-30 | a new workspace has the mode and base image given, with the head at the base; SetImage("fedora") moves both |
| WorkspaceScenarios.EmptySprintExample | workspace_test.go:42-50 | a new workspace's script is the single line `FROM ubuntu:trusty`, with no error |
| WorkspaceScenarios.RunQuiet | workspace.go:83-94 | on an engine with every switch off and exit code 0, Run takes the next container, commits it, records the entry live and moves the head to the new image, with no error |
| WorkspaceScenarios.RunChainExample | workspace_test.go:68-92 | three runs `cmd1`..`cmd3` on a fresh engine: run k gets container `c<k>`, code 0 and no error, keeps the base image, runs on `ubuntu:trusty` for k = 1 and on `i<k-1>` after, is committed as `i<k>`, stays live, and leaves the head at `i<k>` |
| WorkspaceScenarios.ResetTwiceExample | workspace_test.go:93-99 | after three runs, reset returns three results with no error, asks for `c1`, `c2`, `c3` to be removed and tombstones every entry; a second reset returns nothing and asks for no further removal |
| WorkspaceScenarios.BackWorkflowRunExample | workspace_test.go:191-212 | three runs, back(2) and a fourth run: the fourth runs on the image the first committed, the head is the fourth's new image, the second and third entries are tombstoned, and the script is `FROM ubuntu:trusty`, `RUN cmd1`, `RUN cmd4` |

## Left out

- Build, BuildCommit and build (workspace.go:110-139): the build path writes a temporary Dockerfile and calls `docker build`, which is not part of this model.
- EvalResult.Build, Duration and Log: the build flag, timing and the captured log stream are not modelled. The log stream is `Buffer`, which is modelled on its own.
- Eval, CommitContainer, RemoveContainer and verifyImage (the engine wrappers the workspace calls) are not part of this model. Their behaviour is taken from the test engine (docker_test.go:63-141). The inspect switch `failInspect` is added to that engine to model image verification.
- Docker.Engine.Eval: the attach call runs in a goroutine whose error is dropped, so `FailAttach` has no effect and is left out. Container changes are always empty, as in the test engine.
- Workspaces.Workspace.Run: the failed-commit message printed with `fmt.Println` is not modelled.
- Workspaces.Workspace.Write: the file itself is not written. The method returns the exact content `ioutil.WriteFile` would receive, and a write error is not modelled.
- Workspaces.Workspace.ScanBack and Workspaces.Workspace.VisitBack: these are `back`'s loop and loop body, split out as methods; `back` itself is `Back`.
- Workspaces.Workspace.ResetVisit: this is the body of `Reset`'s loop, split out as a method.
- Commands.ReverseInPlace: the swap loop of `pruneChanges` works on a local `seq` rather than an array. In-place swapping on a shared slice is not modelled.
- Buffers.Buffer.Write: Go's `bytes.Buffer` can panic when growing past memory; that panic is not modelled. The downstream writer is the concrete `Sink`, standing in for any `io.Writer`, and its errors are ignored as in the source.
- Buffers.Sink.Write: a writer that accepts only part of a write is not modelled. The sink accepts all of it or none.
- Commands and strings are Dafny strings, i.e. sequences of characters, while Go strings are byte sequences. No model behaviour depends on multi-byte characters. `Latin1` converts strings to bytes only for characters that fit in a byte.
- main.go's REPL loop, help text, history printing, preExit and the terminal handling are left out. So are server.go, watch.go, eval.go's stand-alone `eval` and docker.go's client: they are I/O around the core.
- The workspace unit tests TestWorkflowEval, TestWorkflowEvalCommit, TestEvalCommand, TestSprint and TestWorkspaceWrite are not replayed as scenarios. Their assertions follow from the contracts of Eval, CommitLast, EvalCommand, Sprint and Write.
- WorkspaceScenarios.RunChainExample: the test's `Duration` check and its counts of created containers and committed images after each run are not stated; the counts are the `created` and `images` logs, which `Docker.Engine.Eval` and `Docker.Engine.Commit` extend by one entry per run.
- `mockdock.Containers` and `mockdock.Images`, which the workspace tests read, are not fields of the test engine. They are modelled as the `created` and `images` logs.
