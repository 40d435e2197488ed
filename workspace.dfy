/**
 * The workspace: a configured base image, the head image the next command
 * runs against, and an append-only history of attempts whose entries are
 * tombstoned rather than removed.
 */
module Workspaces {
  import opened Wrappers
  import opened Docker

  /** The entries of h that are not tombstoned, in history order. */
  function Live(h: seq<EvalResult>): (r: seq<EvalResult>)
    ensures |r| <= |h|
    ensures forall k :: 0 <= k < |r| ==> !r[k].deleted
  {
    if h == [] then []
    else Live(h[..|h| - 1]) + (if h[|h| - 1].deleted then [] else [h[|h| - 1]])
  }

  /** One more entry joins the live lineage exactly when it is not tombstoned. */
  lemma LiveSnoc(h: seq<EvalResult>, x: EvalResult)
    ensures Live(h + [x]) == Live(h) + (if x.deleted then [] else [x])
  {
    assert (h + [x])[..|h|] == h;
  }

  /**
   * Concatenation of histories is associative. Kept as a lemma of its own so
   * that LiveAppend's proof does not carry the element-wise reasoning.
   */
  lemma ConcatAssoc(p: seq<EvalResult>, q: seq<EvalResult>, r: seq<EvalResult>)
    ensures (p + q) + r == p + (q + r)
  {
    assert forall k :: 0 <= k < |p| + |q| + |r| ==> ((p + q) + r)[k] == (p + (q + r))[k];
  }

  /** Splitting a history splits its live entries the same way. */
  lemma {:induction false} LiveAppend(a: seq<EvalResult>, b: seq<EvalResult>)
    ensures Live(a + b) == Live(a) + Live(b)
    decreases |b|
  {
    if b == [] {
      assert a + b == a;
    } else {
      var init, x := b[..|b| - 1], b[|b| - 1];
      var tail := if x.deleted then [] else [x];
      LiveAppend(a, init);
      assert b == init + [x];
      assert a + b == (a + init) + [x];
      LiveSnoc(a + init, x);
      LiveSnoc(init, x);
      calc {
        Live(a + b);
        Live(a + init) + tail;
        (Live(a) + Live(init)) + tail;
        { ConcatAssoc(Live(a), Live(init), tail); }
        Live(a) + (Live(init) + tail);
        Live(a) + Live(b);
      }
    }
  }

  /** The live entries of the first i + 1 entries: those of the first i, then entry i if live. */
  lemma LivePrefixStep(h: seq<EvalResult>, i: nat)
    requires i < |h|
    ensures Live(h[..i + 1]) == Live(h[..i]) + (if h[i].deleted then [] else [h[i]])
  {
    assert h[..i + 1][..i] == h[..i];
  }

  /** The live entries from index j on: entry j if live, then those after it. */
  lemma LiveSuffixStep(h: seq<EvalResult>, j: nat)
    requires j < |h|
    ensures Live(h[j..]) == (if h[j].deleted then [] else [h[j]]) + Live(h[j + 1..])
  {
    assert h[j..] == [h[j]] + h[j + 1..];
    LiveAppend([h[j]], h[j + 1..]);
    assert [h[j]][..0] == [];
  }

  /** A history without tombstones is its own live lineage. */
  lemma {:induction false} LiveNoneTombstoned(h: seq<EvalResult>)
    requires forall j :: 0 <= j < |h| ==> !h[j].deleted
    ensures Live(h) == h
    decreases |h|
  {
    if h != [] {
      var init := h[..|h| - 1];
      LiveNoneTombstoned(init);
      assert init + [h[|h| - 1]] == h;
    }
  }

  /** A history whose every entry is tombstoned has no live entry. */
  lemma {:induction false} LiveAllTombstoned(h: seq<EvalResult>)
    requires forall j :: 0 <= j < |h| ==> h[j].deleted
    ensures Live(h) == []
    decreases |h|
  {
    if h != [] {
      LiveAllTombstoned(h[..|h| - 1]);
    }
  }

  /** Counting live entries from index j on is at least counting them from m on, plus one when entry j is live and before m. */
  lemma {:induction false} LiveSuffixMono(h: seq<EvalResult>, j: nat, m: nat)
    requires j <= m <= |h|
    ensures |Live(h[j..])| >= |Live(h[m..])| + (if j < m && !h[j].deleted then 1 else 0)
    decreases m - j
  {
    if j < m {
      LiveSuffixStep(h, j);
      LiveSuffixMono(h, j + 1, m);
    }
  }

  /** The live entries from j on are those of h[j..m] followed by those from m on, so a longer suffix adds exactly its own live entries. */
  lemma LiveSuffixSplit(h: seq<EvalResult>, j: nat, m: nat)
    requires j <= m <= |h|
    ensures Live(h[j..]) == Live(h[j..m]) + Live(h[m..])
    ensures |Live(h[j..])| == |Live(h[j..m])| + |Live(h[m..])|
  {
    assert h[j..] == h[j..m] + h[m..];
    LiveAppend(h[j..m], h[m..]);
  }

  /** back(n) leaves entry j tombstoned: it already was, or it is among the last n live entries (all of them when n < 1). */
  predicate BackTombstones(h: seq<EvalResult>, n: int, j: nat)
    requires j < |h|
  {
    h[j].deleted || n < 1 || |Live(h[j..])| <= n
  }

  /** Entry m is the n-th live entry counted from the end, where back(n) stops. */
  predicate IsBackTarget(h: seq<EvalResult>, n: int, m: nat)
    requires m < |h|
  {
    !h[m].deleted && |Live(h[m..])| == n
  }

  /** There is at most one place where back(n) stops. */
  lemma BackTargetUnique(h: seq<EvalResult>, n: int, a: nat, b: nat)
    requires a < |h| && b < |h|
    requires IsBackTarget(h, n, a) && IsBackTarget(h, n, b)
    ensures a == b
  {
    if a < b {
      LiveSuffixMono(h, a, b);
    } else if b < a {
      LiveSuffixMono(h, b, a);
    }
  }

  /** When at least n >= 1 entries from index j on are live, back(n) stops at one of them. */
  lemma {:induction false} BackTargetExists(h: seq<EvalResult>, n: int, j: nat)
    requires 1 <= n && j <= |h| && n <= |Live(h[j..])|
    ensures exists m :: j <= m < |h| && IsBackTarget(h, n, m)
    decreases |h| - j
  {
    if j < |h| {
      LiveSuffixStep(h, j);
      if n <= |Live(h[j + 1..])| {
        BackTargetExists(h, n, j + 1);
      } else {
        assert IsBackTarget(h, n, j);
      }
    }
  }

  /** The ids of the entries tombstoned between a and b, latest entry first. */
  function FlippedIds(a: seq<EvalResult>, b: seq<EvalResult>): seq<string>
    requires |a| == |b|
  {
    if a == [] then []
    else FlippedIds(a[1..], b[1..]) + (if !a[0].deleted && b[0].deleted then [a[0].id] else [])
  }

  /** An unchanged prefix tombstones nothing. */
  lemma {:induction false} FlippedIdsSkipSame(a: seq<EvalResult>, b: seq<EvalResult>, k: nat)
    requires |a| == |b| && k <= |a| && a[..k] == b[..k]
    ensures FlippedIds(a, b) == FlippedIds(a[k..], b[k..])
    decreases k
  {
    if k > 0 {
      assert a[0] == a[..k][0] && b[0] == b[..k][0];
      assert a[1..][..k - 1] == a[1..k] == b[1..k] == b[1..][..k - 1];
      FlippedIdsSkipSame(a[1..], b[1..], k - 1);
      assert a[1..][k - 1..] == a[k..] && b[1..][k - 1..] == b[k..];
    }
  }

  /** Every entry after position i is tombstoned, as back(n) prescribes for it. */
  ghost predicate BackSuffixDone(h0: seq<EvalResult>, h: seq<EvalResult>, i: int, n: int)
  {
    forall j :: 0 <= j && i < j < |h0| && j < |h| ==> h[j] == h0[j].(deleted := true) && BackTombstones(h0, n, j)
  }

  /**
   * The state of back(n)'s backward scan once entries after i have been
   * visited: nothing up to i has changed, every entry after i is tombstoned
   * as back(n) requires, and `deleted` live entries have been taken so far.
   */
  ghost predicate BackScanned(h0: seq<EvalResult>, h: seq<EvalResult>, i: int, n: int, deleted: int)
  {
    && -1 <= i < |h0| && |h| == |h0|
    && h[..i + 1] == h0[..i + 1]
    && BackSuffixDone(h0, h, i, n)
    && deleted == |Live(h0[i + 1..])|
    && (n < 1 || deleted < n)
  }

  /** Visiting an entry that is already tombstoned changes nothing. */
  lemma BackStepSkip(h0: seq<EvalResult>, h: seq<EvalResult>, i: int, n: int, deleted: int)
    requires BackScanned(h0, h, i, n, deleted) && 0 <= i && h[i].deleted
    ensures BackScanned(h0, h, i - 1, n, deleted)
    ensures FlippedIds(h0[i..], h[i..]) == FlippedIds(h0[i + 1..], h[i + 1..])
  {
    LiveSuffixStep(h0, i);
    assert h[i] == h0[..i + 1][i] == h0[i];
    assert h0[i..][1..] == h0[i + 1..] && h[i..][1..] == h[i + 1..];
  }

  /** Tombstoning a live entry when fewer than n have been taken. */
  lemma BackStepTake(h0: seq<EvalResult>, h: seq<EvalResult>, i: int, n: int, deleted: int)
    requires BackScanned(h0, h, i, n, deleted) && 0 <= i && !h[i].deleted && deleted + 1 != n
    ensures BackScanned(h0, h[i := h[i].(deleted := true)], i - 1, n, deleted + 1)
    ensures var h' := h[i := h[i].(deleted := true)];
      FlippedIds(h0[i..], h'[i..]) == FlippedIds(h0[i + 1..], h[i + 1..]) + [h0[i].id]
  {
    var h' := h[i := h[i].(deleted := true)];
    LiveSuffixStep(h0, i);
    assert h[i] == h0[..i + 1][i] == h0[i];
    assert h'[..i] == h0[..i] by {
      assert h'[..i] == h[..i + 1][..i];
    }
    assert h0[i..][1..] == h0[i + 1..] && h'[i..][1..] == h[i + 1..];
  }

  /** h is h0 with each entry tombstoned as back(n) prescribes. */
  ghost predicate BackTombstoned(h0: seq<EvalResult>, h: seq<EvalResult>, n: int)
  {
    |h| == |h0| && forall j :: 0 <= j < |h| ==> h[j] == h0[j].(deleted := BackTombstones(h0, n, j))
  }

  /** Before the n-th live entry from the end, back(n) tombstones nothing new. */
  lemma BackSparesPrefix(h0: seq<EvalResult>, n: int, i: nat)
    requires i < |h0| && IsBackTarget(h0, n, i)
    ensures 1 <= n <= |Live(h0)|
    ensures forall j :: 0 <= j < i ==> BackTombstones(h0, n, j) == h0[j].deleted
  {
    LiveSuffixStep(h0, i);
    forall j | 0 <= j < i
      ensures BackTombstones(h0, n, j) == h0[j].deleted
    {
      LiveSuffixMono(h0, j, i);
    }
    LiveSuffixMono(h0, 0, i);
    assert h0[0..] == h0;
  }

  /** s without its last n elements, or nothing when s has at most n. */
  function DropLast(s: seq<EvalResult>, n: nat): seq<EvalResult>
  {
    if |s| <= n then [] else s[..|s| - n]
  }

  /**
   * From position j on, back(n) with n >= 1 keeps exactly the live entries
   * that are not among the last n live ones.
   */
  lemma {:induction false} BackKeepsSuffix(h0: seq<EvalResult>, h: seq<EvalResult>, n: nat, j: nat)
    requires BackTombstoned(h0, h, n) && n >= 1 && j <= |h0|
    ensures Live(h[j..]) == DropLast(Live(h0[j..]), n)
    decreases |h0| - j
  {
    if j == |h0| {
      assert h0[j..] == [] == h[j..];
    } else {
      BackKeepsSuffix(h0, h, n, j + 1);
      LiveSuffixStep(h0, j);
      LiveSuffixStep(h, j);
      assert h[j] == h0[j].(deleted := BackTombstones(h0, n, j));
      BackKeepStep(h0[j], h[j], Live(h0[j + 1..]), Live(h[j + 1..]), n);
    }
  }

  /** One entry of the step in BackKeepsSuffix, on the live lineages alone. */
  lemma BackKeepStep(x: EvalResult, x': EvalResult, rest: seq<EvalResult>, rest': seq<EvalResult>, n: nat)
    requires n >= 1 && rest' == DropLast(rest, n)
    requires x' == x.(deleted := x.deleted || |(if x.deleted then [] else [x]) + rest| <= n)
    ensures (if x'.deleted then [] else [x']) + rest' == DropLast((if x.deleted then [] else [x]) + rest, n)
  {
    if !x.deleted && |rest| + 1 > n {
      assert ([x] + rest)[..|rest| + 1 - n] == [x] + rest[..|rest| - n];
    }
  }

  /** back(n) with n >= 1 drops the last n live entries from the live lineage, or all of them when there are fewer. */
  lemma BackDropsLastLive(h0: seq<EvalResult>, h: seq<EvalResult>, n: int)
    requires BackTombstoned(h0, h, n)
    ensures var live := Live(h0);
      Live(h) == if n < 1 || |live| < n then [] else live[..|live| - n]
  {
    if n < 1 {
      LiveAllTombstoned(h);
    } else {
      BackKeepsSuffix(h0, h, n, 0);
      assert h0[0..] == h0 && h[0..] == h;
      assert Live(h) == DropLast(Live(h0), n);
    }
  }

  /**
   * Three runs, back(2), one more run: the last two runs are tombstoned, the
   * head returns to the image the second run started from, and the script
   * keeps the first and the new command.
   */
  lemma BackWorkflowExample(image: string, h0: seq<EvalResult>, h: seq<EvalResult>, next: EvalResult)
    requires |h0| == 3 && !h0[0].deleted && !h0[1].deleted && !h0[2].deleted
    requires BackTombstoned(h0, h, 2) && !next.deleted
    ensures IsBackTarget(h0, 2, 1)
    ensures !h[0].deleted && h[1].deleted && h[2].deleted
    ensures ExportLines(image, h + [next]) == ["FROM " + image, "RUN " + h0[0].command, "RUN " + next.command]
  {
    BackWorkflowFlags(h0, h);
    BackWorkflowScript(image, h0[0], h, next);
  }

  /** The tombstones back(2) leaves on three live runs. */
  lemma BackWorkflowFlags(h0: seq<EvalResult>, h: seq<EvalResult>)
    requires |h0| == 3 && !h0[0].deleted && !h0[1].deleted && !h0[2].deleted
    requires BackTombstoned(h0, h, 2)
    ensures IsBackTarget(h0, 2, 1)
    ensures h == [h0[0], h0[1].(deleted := true), h0[2].(deleted := true)]
  {
    LiveSuffixStep(h0, 2);
    LiveSuffixStep(h0, 1);
    LiveSuffixStep(h0, 0);
    assert h0[3..] == [];
    assert h[0] == h0[0].(deleted := BackTombstones(h0, 2, 0));
    assert h[1] == h0[1].(deleted := BackTombstones(h0, 2, 1));
    assert h[2] == h0[2].(deleted := BackTombstones(h0, 2, 2));
  }

  /** The script of a history whose first entry alone is live, plus one more run. */
  lemma BackWorkflowScript(image: string, first: EvalResult, h: seq<EvalResult>, next: EvalResult)
    requires |h| == 3 && h[0] == first && !first.deleted && h[1].deleted && h[2].deleted && !next.deleted
    ensures ExportLines(image, h + [next]) == ["FROM " + image, "RUN " + first.command, "RUN " + next.command]
  {
    var h' := h + [next];
    assert h'[..3] == h && h[..2] == h[..3][..2] && h[..1] == h[..2][..1] && h[..1][..0] == [];
    assert ExportLines(image, h[..1]) == ["FROM " + image, "RUN " + first.command];
    assert ExportLines(image, h) == ExportLines(image, h[..2]) == ExportLines(image, h[..1]);
  }

  /** Tombstoning the n-th live entry ends the scan in the state back(n) promises. */
  lemma BackStop(h0: seq<EvalResult>, h: seq<EvalResult>, i: int, n: int, deleted: int)
    requires BackScanned(h0, h, i, n, deleted) && 0 <= i && !h[i].deleted && deleted + 1 == n
    ensures var h' := h[i := h[i].(deleted := true)];
      && BackTombstoned(h0, h', n)
      && 1 <= n <= |Live(h0)|
      && IsBackTarget(h0, n, i) && h[i] == h0[i]
      && FlippedIds(h0, h') == FlippedIds(h0[i + 1..], h[i + 1..]) + [h0[i].id]
  {
    assert h[i] == h0[..i + 1][i] == h0[i];
    BackStopTombstones(h0, h, i, n, deleted);
    BackStopFlipped(h0, h, i);
  }

  /** The tombstones of a scan stopped at entry i are those back(n) prescribes. */
  lemma BackStopTombstones(h0: seq<EvalResult>, h: seq<EvalResult>, i: int, n: int, deleted: int)
    requires BackScanned(h0, h, i, n, deleted) && 0 <= i && !h[i].deleted && deleted + 1 == n
    ensures BackTombstoned(h0, h[i := h[i].(deleted := true)], n)
    ensures 1 <= n <= |Live(h0)| && IsBackTarget(h0, n, i)
  {
    var h' := h[i := h[i].(deleted := true)];
    LiveSuffixStep(h0, i);
    assert h[i] == h0[..i + 1][i] == h0[i];
    BackSparesPrefix(h0, n, i);
    forall j | 0 <= j < |h'|
      ensures h'[j] == h0[j].(deleted := BackTombstones(h0, n, j))
    {
      if j < i {
        assert h'[j] == h[..i + 1][j] == h0[..i + 1][j];
      }
    }
  }

  /** Stopping at a live entry i that the scan has not touched before it: i's id is the last remove request. */
  lemma BackStopFlipped(h0: seq<EvalResult>, h: seq<EvalResult>, i: int)
    requires |h| == |h0| && 0 <= i < |h0| && h[..i + 1] == h0[..i + 1] && !h0[i].deleted
    ensures var h' := h[i := h[i].(deleted := true)];
      FlippedIds(h0, h') == FlippedIds(h0[i + 1..], h[i + 1..]) + [h0[i].id]
  {
    var h' := h[i := h[i].(deleted := true)];
    assert h'[..i] == h0[..i] by {
      assert h'[..i] == h[..i + 1][..i];
    }
    FlippedIdsSkipSame(h0, h', i);
    assert h0[i..][1..] == h0[i + 1..] && h'[i..][1..] == h[i + 1..];
  }

  /** A scan that reaches the start has tombstoned every live entry, and fewer than n of them existed. */
  lemma BackExhausted(h0: seq<EvalResult>, h: seq<EvalResult>, n: int, deleted: int)
    requires BackScanned(h0, h, -1, n, deleted)
    ensures BackTombstoned(h0, h, n)
    ensures !(1 <= n <= |Live(h0)|)
    ensures FlippedIds(h0, h) == FlippedIds(h0[0..], h[0..])
  {
    assert h0[0..] == h0 && h[0..] == h;
    forall j | 0 <= j < |h|
      ensures h[j] == h0[j].(deleted := BackTombstones(h0, n, j))
    {
      assert BackTombstones(h0, n, j);
    }
  }

  /** The ids of a sequence of entries, in order. */
  function Ids(h: seq<EvalResult>): seq<string>
  {
    seq(|h|, k requires 0 <= k < |h| => h[k].id)
  }

  /** The outcome of a workspace reset for each removed container. */
  datatype ResetResult = ResetResult(err: Option<Error>, id: string)

  /** What reset reports for the given live entries when removal fails or succeeds throughout. */
  function ResetResults(live: seq<EvalResult>, failRemove: bool): seq<ResetResult>
  {
    seq(|live|, k requires 0 <= k < |live| =>
      ResetResult(if failRemove then Some(RemoveFailure) else None, live[k].id))
  }

  /** Reset reports one result per live entry, in order, with that entry's id and an error exactly when removal fails. */
  lemma ResetResultsMeaning(live: seq<EvalResult>, failRemove: bool)
    ensures |ResetResults(live, failRemove)| == |live|
    ensures forall k :: 0 <= k < |live| ==>
      ResetResults(live, failRemove)[k].id == live[k].id && (ResetResults(live, failRemove)[k].err == None <==> !failRemove)
  {
  }

  /**
   * After a reset every entry is tombstoned, so a second reset finds no live
   * entry: it reports nothing and requests no removal.
   */
  lemma ResetAfterReset(h0: seq<EvalResult>, h: seq<EvalResult>, failRemove: bool)
    requires |h| == |h0| && forall j :: 0 <= j < |h| ==> h[j] == h0[j].(deleted := true)
    ensures Live(h) == [] && ResetResults(Live(h), failRemove) == [] && Ids(Live(h)) == []
  {
    LiveAllTombstoned(h);
  }

  lemma ResetResultsSnoc(live: seq<EvalResult>, e: EvalResult, failRemove: bool)
    ensures ResetResults(live + [e], failRemove)
      == ResetResults(live, failRemove) + [ResetResult(if failRemove then Some(RemoveFailure) else None, e.id)]
  {
  }

  lemma IdsSnoc(live: seq<EvalResult>, e: EvalResult)
    ensures Ids(live + [e]) == Ids(live) + [e.id]
  {
  }

  /** The build script for a base image and a history: FROM, then RUN per live entry. */
  function ExportLines(image: string, h: seq<EvalResult>): (r: seq<string>)
    ensures 1 <= |r| <= |h| + 1 && r[0] == "FROM " + image
  {
    if h == [] then ["FROM " + image]
    else ExportLines(image, h[..|h| - 1]) + (if h[|h| - 1].deleted then [] else ["RUN " + h[|h| - 1].command])
  }

  /** The script is the FROM line followed by one RUN line per live entry, in history order. */
  lemma {:induction false} ExportLinesShape(image: string, h: seq<EvalResult>)
    ensures |ExportLines(image, h)| == 1 + |Live(h)|
    ensures ExportLines(image, h)[0] == "FROM " + image
    ensures forall k :: 0 <= k < |Live(h)| ==> ExportLines(image, h)[k + 1] == "RUN " + Live(h)[k].command
    decreases |h|
  {
    if h != [] {
      ExportLinesShape(image, h[..|h| - 1]);
    }
  }

  /** The file content for a list of lines: each line followed by a newline. */
  function Render(lines: seq<string>): (r: string)
    ensures |r| >= |lines|
    ensures lines != [] ==> r[|r| - 1] == '\n'
  {
    if lines == [] then [] else lines[0] + "\n" + Render(lines[1..])
  }

  lemma {:induction false} RenderAppend(lines: seq<string>, line: string)
    ensures Render(lines + [line]) == Render(lines) + line + "\n"
    decreases |lines|
  {
    if lines != [] {
      assert (lines + [line])[1..] == lines[1..] + [line];
      RenderAppend(lines[1..], line);
    }
  }

  /** Reads newline-terminated lines back from file content. */
  function ParseLines(s: string): seq<string>
    decreases |s|
  {
    if s == [] then []
    else
      var k := Text.IndexOf(s, '\n');
      if k == |s| then [s] else [s[..k]] + ParseLines(s[k + 1..])
  }

  /** A line without newlines, a newline and more content read back as that line followed by the lines of the rest. */
  lemma ParseLinesCons(line: string, rest: string)
    requires '\n' !in line
    ensures ParseLines(line + "\n" + rest) == [line] + ParseLines(rest)
  {
    Text.CutAtFirst(line, '\n', rest);
  }

  /** Content written from lines without newlines reads back as those lines. */
  lemma {:induction false} RenderRoundTrip(lines: seq<string>)
    requires forall k :: 0 <= k < |lines| ==> '\n' !in lines[k]
    ensures ParseLines(Render(lines)) == lines
    decreases |lines|
  {
    if lines != [] {
      var tail := lines[1..];
      assert forall k :: 0 <= k < |tail| ==> tail[k] == lines[k + 1];
      RenderRoundTrip(tail);
      ParseLinesCons(lines[0], Render(tail));
      assert lines == [lines[0]] + tail;
    }
  }

  class Workspace {
    var mode: string
    var image: string          // configured base image
    var currentImage: string   // head: the image the next command runs against
    var history: seq<EvalResult>
    const docker: Engine

    ghost predicate Valid()
      reads this, docker
    {
      docker.Valid()
    }

    /** A workspace whose head is its base image and whose history is empty. */
    constructor (docker: Engine, mode: string, image: string)
      requires docker.Valid()
      ensures Valid()
      ensures this.docker == docker && this.mode == mode
      ensures this.image == image && currentImage == image && history == []
    {
      this.docker := docker;
      this.mode := mode;
      this.image := image;
      currentImage := image;
      history := [];
    }

    /**
     * Switches the base image once the engine confirms it exists; the head
     * follows only when it was still at the old base.
     */
    method SetImage(image: string) returns (err: Option<Error>)
      requires Valid()
      modifies this`image, this`currentImage
      ensures Valid()
      ensures err.Some? <==> docker.failInspect
      ensures err.Some? ==> this.image == old(this.image) && currentImage == old(currentImage)
      ensures err.None? ==> this.image == image
      ensures err.None? ==> currentImage == (if old(currentImage) == old(this.image) then image else old(currentImage))
    {
      err := docker.VerifyImage(image);
      if err.Some? {
        return;
      }
      if currentImage == this.image {
        currentImage := image;
      }
      this.image := image;
    }

    /** Commits a container; on success the head moves to the new image. */
    method Commit(id: string) returns (imageId: string, err: Option<Error>)
      requires Valid()
      modifies this`currentImage, docker`images
      ensures Valid()
      ensures docker.failCommit ==> imageId == "" && err.Some? && currentImage == old(currentImage)
      ensures docker.failCommit ==> docker.images == old(docker.images)
      ensures !docker.failCommit ==> err == None && imageId == ImageId(id) && currentImage == imageId
      ensures !docker.failCommit ==> docker.images == old(docker.images) + [imageId]
    {
      imageId, err := docker.Commit(id);
      if err == None {
        currentImage := imageId;
      }
    }

    /**
     * Commits the container of the latest entry. Fails on an empty history or
     * when that entry already has both an image and a container; an entry
     * without a container is revived with the image it has.
     */
    method CommitLast() returns (img: string, err: Option<Error>)
      requires Valid()
      modifies this`currentImage, this`history, docker`images
      ensures Valid()
      ensures old(history) == [] ==>
        img == "" && err == Some(NoContainerToCommit)
        && history == old(history) && currentImage == old(currentImage) && docker.images == old(docker.images)
      ensures old(history) != [] ==>
        var n := |old(history)| - 1;
        var last := old(history)[n];
        if last.newImage != "" && last.id != "" then
          img == "" && err == Some(AlreadyCommitted)
          && history == old(history) && currentImage == old(currentImage) && docker.images == old(docker.images)
        else if last.id == "" then
          img == last.newImage && err == None
          && history == old(history)[n := last.(deleted := false)]
          && currentImage == old(currentImage) && docker.images == old(docker.images)
        else if docker.failCommit then
          img == "" && err.Some?
          && history == old(history) && currentImage == old(currentImage) && docker.images == old(docker.images)
        else
          img == ImageId(last.id) && err == None && currentImage == img
          && history == old(history)[n := last.(newImage := img, deleted := false)]
          && docker.images == old(docker.images) + [img]
    {
      if |history| == 0 {
        return "", Some(NoContainerToCommit);
      }
      var last := |history| - 1;
      if history[last].newImage != "" && history[last].id != "" {
        return "", Some(AlreadyCommitted);
      }
      img := history[last].newImage;
      if history[last].id != "" {
        var committed, e := Commit(history[last].id);
        if e.Some? {
          return "", e;
        }
        img := committed;
        history := history[last := history[last].(newImage := committed)];
      }
      history := history[last := history[last].(deleted := false)];
      err := None;
    }

    /** Runs a command against the head; the result records the base image of the moment. */
    method EvalCommand(command: string) returns (res: EvalResult, err: Option<Error>)
      requires Valid()
      modifies docker`lastId, docker`created
      ensures Valid()
      ensures res.command == command && res.image == currentImage && res.baseImage == image
      ensures !res.deleted && res.newImage == ""
      ensures docker.EvalOutcome(res, err, old(docker.lastId))
    {
      res, err := docker.Eval(command, currentImage);
      res := res.(baseImage := image);
    }

    /**
     * Runs a command and records it; exit code 0 commits its container and
     * moves the head to the new image.
     */
    method Run(command: string) returns (res: EvalResult, err: Option<Error>)
      requires Valid()
      modifies this`currentImage, this`history, docker`lastId, docker`created, docker`images
      ensures Valid()
      ensures history == old(history) + [res]
      ensures res.command == command && res.image == old(currentImage) && res.baseImage == image && !res.deleted
      ensures docker.EvalOutcome(res, err, old(docker.lastId))
      ensures res.code == 0 && !docker.failCommit ==>
        res.newImage == ImageId(res.id) && currentImage == res.newImage && docker.images == old(docker.images) + [res.newImage]
      ensures !(res.code == 0 && !docker.failCommit) ==>
        res.newImage == "" && currentImage == old(currentImage) && docker.images == old(docker.images)
    {
      res, err := EvalCommand(command);
      if res.code == 0 {
        var imageId, commitErr := Commit(res.id);
        if commitErr == None {
          res := res.(newImage := imageId);
        }
      }
      history := history + [res];
    }

    /** Runs a command without committing it; the entry is recorded already tombstoned. */
    method Eval(command: string) returns (res: EvalResult, err: Option<Error>)
      requires Valid()
      modifies this`history, docker`lastId, docker`created
      ensures Valid()
      ensures history == old(history) + [res]
      ensures res.command == command && res.image == currentImage && res.baseImage == image
      ensures res.deleted && res.newImage == ""
      ensures docker.EvalOutcome(res, err, old(docker.lastId))
    {
      res, err := EvalCommand(command);
      res := res.(deleted := true);
      history := history + [res];
    }

    /** Removes the container of every live entry, tombstones all entries and moves the head back to the base image. */
    method Reset() returns (results: seq<ResetResult>)
      requires Valid()
      modifies this`currentImage, this`history, docker`removed
      ensures Valid()
      ensures |history| == |old(history)|
      ensures forall j :: 0 <= j < |history| ==> history[j] == old(history)[j].(deleted := true)
      ensures currentImage == image
      ensures results == ResetResults(Live(old(history)), docker.failRemove)
      ensures docker.removed == old(docker.removed) + Ids(Live(old(history)))
    {
      var h := history;
      ghost var h0 := history;
      ghost var live: seq<EvalResult> := [];
      results := [];
      var i := 0;
      while i < |h|
        invariant 0 <= i <= |h| == |h0|
        invariant forall j :: 0 <= j < i ==> h[j] == h0[j].(deleted := true)
        invariant forall j :: i <= j < |h| ==> h[j] == h0[j]
        invariant live == Live(h0[..i])
        invariant results == ResetResults(live, docker.failRemove)
        invariant docker.removed == old(docker.removed) + Ids(live)
      {
        LivePrefixStep(h0, i);
        h, results, live := ResetVisit(h, i, results, live, old(docker.removed));
        i := i + 1;
      }
      assert h0[..i] == h0;
      history := h;
      currentImage := image;
    }

    /**
     * One step of reset's loop at entry i: a live entry has its container
     * removed and its result recorded, and ends up tombstoned.
     */
    method ResetVisit(h: seq<EvalResult>, i: nat, results: seq<ResetResult>, ghost live: seq<EvalResult>, ghost r0: seq<string>)
      returns (h': seq<EvalResult>, results': seq<ResetResult>, ghost live': seq<EvalResult>)
      requires i < |h|
      requires results == ResetResults(live, docker.failRemove)
      requires docker.removed == r0 + Ids(live)
      requires Valid()
      modifies docker`removed
      ensures Valid()
      ensures h' == h[i := h[i].(deleted := true)]
      ensures live' == live + (if h[i].deleted then [] else [h[i]])
      ensures results' == ResetResults(live', docker.failRemove)
      ensures docker.removed == r0 + Ids(live')
    {
      if h[i].deleted {
        return h, results, live;
      }
      ResetResultsSnoc(live, h[i], docker.failRemove);
      IdsSnoc(live, h[i]);
      var err := docker.Remove(h[i].id);
      results' := results + [ResetResult(err, h[i].id)];
      live' := live + [h[i]];
      h' := h[i := h[i].(deleted := true)];
    }

    /** The build script of the live lineage: FROM the base image, then one RUN per live entry. */
    method Sprint() returns (lines: seq<string>, err: Option<Error>)
      ensures lines == ExportLines(image, history) && err == None
    {
      lines := ["FROM " + image];
      var i := 0;
      while i < |history|
        invariant 0 <= i <= |history|
        invariant lines == ExportLines(image, history[..i])
      {
        assert history[..i + 1][..i] == history[..i];
        if !history[i].deleted {
          lines := lines + ["RUN " + history[i].command];
        }
        i := i + 1;
      }
      assert history[..i] == history;
      err := None;
    }

    /** The content Write puts in its file: every script line followed by a newline. */
    method Write() returns (content: string)
      ensures content == Render(ExportLines(image, history))
    {
      var lines, _ := Sprint();
      content := [];
      var i := 0;
      while i < |lines|
        invariant 0 <= i <= |lines|
        invariant content == Render(lines[..i])
      {
        assert lines[..i + 1] == lines[..i] + [lines[i]];
        RenderAppend(lines[..i], lines[i]);
        content := content + (lines[i] + "\n");
        i := i + 1;
      }
      assert lines[..i] == lines;
    }

    /**
     * back's backward scan over a copy of the history: from the latest entry
     * backwards, tombstones and removes live entries until n have been taken,
     * and reports the image the n-th of them ran against when it gets there.
     */
    method ScanBack(h0: seq<EvalResult>, n: int) returns (h: seq<EvalResult>, head: Option<string>, ghost m: nat)
      requires Valid()
      modifies docker`removed
      ensures Valid()
      ensures BackTombstoned(h0, h, n)
      ensures 1 <= n <= |Live(h0)| ==> m < |h0| && IsBackTarget(h0, n, m) && head == Some(h0[m].image)
      ensures !(1 <= n <= |Live(h0)|) ==> head == None
      ensures docker.removed == old(docker.removed) + FlippedIds(h0, h)
    {
      h := h0;
      head := None;
      m := 0;
      var deleted := 0;
      var i := |h| - 1;
      while i > -1
        invariant BackScanned(h0, h, i, n, deleted)
        invariant docker.removed == old(docker.removed) + FlippedIds(h0[i + 1..], h[i + 1..])
        decreases i
      {
        var stop;
        h, deleted, stop := VisitBack(h0, h, i, n, deleted, old(docker.removed));
        if stop {
          head := Some(h[i].image);
          m := i;
          return;
        }
        i := i - 1;
      }
      BackExhausted(h0, h, n, deleted);
    }

    /**
     * One step of back's scan at entry i: a live entry is removed and
     * tombstoned, and the scan stops when it was the n-th taken.
     */
    method VisitBack(h0: seq<EvalResult>, h: seq<EvalResult>, i: int, n: int, deleted: int, ghost r0: seq<string>)
      returns (h': seq<EvalResult>, deleted': int, stop: bool)
      requires BackScanned(h0, h, i, n, deleted) && 0 <= i
      requires docker.removed == r0 + FlippedIds(h0[i + 1..], h[i + 1..])
      requires Valid()
      modifies docker`removed
      ensures Valid()
      ensures stop ==>
        && BackTombstoned(h0, h', n) && 1 <= n <= |Live(h0)| && IsBackTarget(h0, n, i) && h'[i].image == h0[i].image
        && docker.removed == r0 + FlippedIds(h0, h')
      ensures !stop ==>
        && BackScanned(h0, h', i - 1, n, deleted')
        && docker.removed == r0 + FlippedIds(h0[i..], h'[i..])
    {
      if h[i].deleted {
        BackStepSkip(h0, h, i, n, deleted);
        return h, deleted, false;
      }
      var _ := docker.Remove(h[i].id);
      assert docker.removed == r0 + (FlippedIds(h0[i + 1..], h[i + 1..]) + [h0[i].id]) by {
        assert h[i] == h0[..i + 1][i] == h0[i];
      }
      h' := h[i := h[i].(deleted := true)];
      if deleted + 1 == n {
        BackStop(h0, h, i, n, deleted);
        return h', deleted + 1, true;
      }
      BackStepTake(h0, h, i, n, deleted);
      deleted' := deleted + 1;
      stop := false;
    }

    /**
     * Steps back n live entries: fails when n exceeds the whole history
     * (tombstoned entries included); otherwise tombstones and removes live
     * entries from the latest backwards until n are gone, and moves the head
     * to the image the n-th of them ran against. With fewer live entries than
     * n (or n < 1) every live entry goes and the head stays.
     */
    method Back(n: int) returns (err: Option<Error>)
      requires Valid()
      modifies this`currentImage, this`history, docker`removed
      ensures Valid()
      ensures n > |old(history)| ==>
        err == Some(NoHistoryThatFarBack) && history == old(history)
        && currentImage == old(currentImage) && docker.removed == old(docker.removed)
      ensures n <= |old(history)| ==> err == None && |history| == |old(history)|
      ensures n <= |old(history)| ==>
        forall j :: 0 <= j < |history| ==> history[j] == old(history)[j].(deleted := BackTombstones(old(history), n, j))
      ensures 1 <= n <= |Live(old(history))| ==>
        exists m :: 0 <= m < |old(history)| && IsBackTarget(old(history), n, m) && currentImage == old(history)[m].image
      ensures !(1 <= n <= |Live(old(history))|) ==> currentImage == old(currentImage)
      ensures n <= |old(history)| ==> docker.removed == old(docker.removed) + FlippedIds(old(history), history)
    {
      if n > |history| {
        return Some(NoHistoryThatFarBack);
      }
      var h, head, m := ScanBack(history, n);
      if head.Some? {
        currentImage := head.value;
      }
      history := h;
      err := None;
    }
  }
}
