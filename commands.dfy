/**
 * The REPL's pure helpers: the change pruner applied before a result's
 * changes are shown, and the parser of an input line into a command.
 */
module Commands {
  import opened Wrappers
  import opened Text
  import opened Docker

  // ---------------------------------------------------------------- pruner

  /** The path the backward scan visited just before index i: that of entry i + 1, or "" for the last entry. */
  function PrevVisited(changes: seq<Change>, i: nat): string
  {
    if i + 1 < |changes| then changes[i + 1].path else ""
  }

  /** Entry i survives pruning: it is not a Modified entry, or its path does not occur in the path visited before it. */
  predicate Keep(changes: seq<Change>, i: nat)
    requires i < |changes|
  {
    changes[i].kind != 0 || !Contains(PrevVisited(changes, i), changes[i].path)
  }

  /** The indices from i on that survive, in increasing order. */
  function KeptFrom(changes: seq<Change>, i: nat): (r: seq<nat>)
    ensures forall k :: 0 <= k < |r| ==> i <= r[k] < |changes|
    decreases |changes| - i
  {
    if i >= |changes| then []
    else (if Keep(changes, i) then [i] else []) + KeptFrom(changes, i + 1)
  }

  /** The indices pruning keeps; index 0 is never visited. */
  function PrunedIndices(changes: seq<Change>): seq<nat>
  {
    KeptFrom(changes, 1)
  }

  /** The entries at the given indices, in the order of the indices. */
  function Select(changes: seq<Change>, idx: seq<nat>): (r: seq<Change>)
    requires forall k :: 0 <= k < |idx| ==> idx[k] < |changes|
    ensures |r| == |idx|
    ensures forall c :: c in r ==> c in changes
  {
    if idx == [] then [] else [changes[idx[0]]] + Select(changes, idx[1..])
  }

  lemma {:induction false} SelectAt(changes: seq<Change>, idx: seq<nat>, k: nat)
    requires forall k :: 0 <= k < |idx| ==> idx[k] < |changes|
    requires k < |idx|
    ensures |Select(changes, idx)| == |idx| && Select(changes, idx)[k] == changes[idx[k]]
    decreases |idx|
  {
    if k > 0 {
      SelectAt(changes, idx[1..], k - 1);
    } else if |idx| > 1 {
      SelectAt(changes, idx[1..], 0);
    }
  }

  /** What pruneChanges returns: one entry of the input per kept index, and nothing that is not in the input. */
  function Pruned(changes: seq<Change>): (r: seq<Change>)
    ensures |r| == |PrunedIndices(changes)|
    ensures forall c :: c in r ==> c in changes
  {
    Select(changes, PrunedIndices(changes))
  }

  function Reverse<T>(s: seq<T>): (r: seq<T>)
    ensures |r| == |s|
  {
    if s == [] then [] else Reverse(s[1..]) + [s[0]]
  }

  lemma {:induction false} ReverseAt<T>(s: seq<T>, k: nat)
    requires k < |s|
    ensures |Reverse(s)| == |s| && Reverse(s)[k] == s[|s| - 1 - k]
    decreases |s|
  {
    if k < |s| - 1 {
      ReverseAt(s[1..], k);
    } else if |s| > 1 {
      ReverseAt(s[1..], 0);
    }
  }

  /** A sequence equals the reverse of r exactly when they agree position by position, mirrored. */
  lemma ReverseByIndex<T>(s: seq<T>, r: seq<T>)
    requires |r| == |s|
    requires forall k :: 0 <= k < |s| ==> r[k] == s[|s| - 1 - k]
    ensures r == Reverse(s)
  {
    if s == [] {
      assert r == [];
    } else {
      forall k | 0 <= k < |s|
        ensures r[k] == Reverse(s)[k]
      {
        ReverseAt(s, k);
      }
      ReverseAt(s, 0);
    }
  }

  lemma ReverseInvolutive<T>(s: seq<T>)
    ensures Reverse(Reverse(s)) == s
  {
    if s != [] {
      ReverseAt(s, 0);
      forall k | 0 <= k < |s|
        ensures s[k] == Reverse(s)[|s| - 1 - k]
      {
        ReverseAt(s, |s| - 1 - k);
      }
      ReverseByIndex(Reverse(s), s);
    }
  }

  /** The kept indices from i on are increasing, and an index is among them exactly when it is at least i and survives. */
  lemma {:induction false} KeptFromSpec(changes: seq<Change>, i: nat)
    ensures forall a, b :: 0 <= a < b < |KeptFrom(changes, i)| ==> KeptFrom(changes, i)[a] < KeptFrom(changes, i)[b]
    ensures forall j :: 0 <= j < |changes| ==> (j in KeptFrom(changes, i) <==> i <= j && Keep(changes, j))
    decreases |changes| - i
  {
    if i < |changes| {
      KeptFromSpec(changes, i + 1);
    }
  }

  /**
   * The result is a subsequence of changes[1..] in forward order: entry k of
   * the result is the entry at the k-th kept index, and the kept indices
   * increase from 1 on.
   */
  lemma PrunedIsOrderedSubsequence(changes: seq<Change>)
    ensures |Pruned(changes)| == |PrunedIndices(changes)|
    ensures forall k :: 0 <= k < |Pruned(changes)| ==>
      1 <= PrunedIndices(changes)[k] < |changes| && Pruned(changes)[k] == changes[PrunedIndices(changes)[k]]
    ensures forall a, b :: 0 <= a < b < |PrunedIndices(changes)| ==> PrunedIndices(changes)[a] < PrunedIndices(changes)[b]
  {
    KeptFromSpec(changes, 1);
    forall k | 0 <= k < |Pruned(changes)|
      ensures Pruned(changes)[k] == changes[PrunedIndices(changes)[k]]
    {
      SelectAt(changes, PrunedIndices(changes), k);
    }
  }

  /** The first entry is never returned, so at most |changes| - 1 entries come out and fewer than two in gives none. */
  lemma PrunedSkipsFirst(changes: seq<Change>)
    ensures 0 !in PrunedIndices(changes)
    ensures |changes| <= 1 ==> Pruned(changes) == []
    ensures |changes| >= 1 ==> |Pruned(changes)| <= |changes| - 1
  {
    KeptFromSpec(changes, 1);
    var idx := PrunedIndices(changes);
    if |changes| >= 1 {
      IncreasingBounded(idx, 1, |changes|);
    }
  }

  /** A strictly increasing sequence of numbers in [lo, hi) has at most hi - lo elements. */
  lemma {:induction false} IncreasingBounded(idx: seq<nat>, lo: nat, hi: nat)
    requires lo <= hi
    requires forall k :: 0 <= k < |idx| ==> lo <= idx[k] < hi
    requires forall a, b :: 0 <= a < b < |idx| ==> idx[a] < idx[b]
    ensures |idx| <= hi - lo
    decreases |idx|
  {
    if idx != [] {
      IncreasingBounded(idx[1..], idx[0] + 1, hi);
    }
  }

  /** Every Added or Removed entry after the first is kept. */
  lemma PrunedKeepsAddedAndRemoved(changes: seq<Change>, i: nat)
    requires 1 <= i < |changes| && changes[i].kind != 0
    ensures i in PrunedIndices(changes)
  {
    KeptFromSpec(changes, 1);
  }

  /** A Modified entry after the first is kept exactly when its path does not occur in the next entry's path ("" after the last). */
  lemma PrunedModifiedRule(changes: seq<Change>, i: nat)
    requires 1 <= i < |changes| && changes[i].kind == 0
    ensures i in PrunedIndices(changes) <==>
      !(exists k :: OccursAt(PrevVisited(changes, i), changes[i].path, k))
    ensures i == |changes| - 1 ==> (i in PrunedIndices(changes) <==> changes[i].path != "")
  {
    KeptFromSpec(changes, 1);
    ContainsIffOccurs(PrevVisited(changes, i), changes[i].path);
    ContainsInEmpty(changes[i].path);
  }

  /** The list the backward scan has collected once it has visited every index from i on: surviving entries, latest first. */
  function CollectedFrom(changes: seq<Change>, i: nat): seq<Change>
    decreases |changes| - i
  {
    if i >= |changes| then []
    else CollectedFrom(changes, i + 1) + (if Keep(changes, i) then [changes[i]] else [])
  }

  /** The backward scan collects exactly the surviving entries in reverse order. */
  lemma {:induction false} CollectedFromReversed(changes: seq<Change>, i: nat)
    ensures CollectedFrom(changes, i) == Reverse(Select(changes, KeptFrom(changes, i)))
    decreases |changes| - i
  {
    if i < |changes| {
      CollectedFromReversed(changes, i + 1);
      var rest := Select(changes, KeptFrom(changes, i + 1));
      if Keep(changes, i) {
        var idx := KeptFrom(changes, i);
        assert idx[1..] == KeptFrom(changes, i + 1);
        assert Select(changes, idx) == [changes[i]] + rest;
        assert ([changes[i]] + rest)[1..] == rest;
      } else {
        assert KeptFrom(changes, i) == KeptFrom(changes, i + 1);
      }
    }
  }

  /**
   * pruneChanges: walks the changes from the last down to index 1, collecting
   * every entry that is not a Modified entry whose path occurs in the path
   * visited just before, then reverses the collected list in place.
   */
  method PruneChanges(changes: seq<Change>) returns (c: seq<Change>)
    ensures c == Pruned(changes)
  {
    var p: string := "";
    c := [];
    var i := |changes| - 1;
    while i > 0
      invariant -1 <= i < |changes| && (|changes| > 0 ==> i >= 0)
      invariant i >= 0 ==> p == PrevVisited(changes, i)
      invariant c == CollectedFrom(changes, i + 1)
      decreases i
    {
      if changes[i].kind == 0 {
        if !Contains(p, changes[i].path) {
          c := c + [changes[i]];
        }
      } else {
        c := c + [changes[i]];
      }
      p := changes[i].path;
      i := i - 1;
    }
    assert c == CollectedFrom(changes, 1);
    CollectedFromReversed(changes, 1);
    ReverseInvolutive(Pruned(changes));
    c := ReverseInPlace(c);
  }

  /** The swap loop closing pruneChanges: exchanges c[i] and its mirror for i from the middle down to 0. */
  method ReverseInPlace(c0: seq<Change>) returns (c: seq<Change>)
    ensures c == Reverse(c0)
  {
    c := c0;
    var n := |c|;
    var j := n / 2 - 1;
    while j >= 0
      invariant -1 <= j <= n / 2 - 1 && |c| == n
      invariant forall k :: 0 <= k <= j ==> c[k] == c0[k]
      invariant forall k :: n - 1 - j <= k < n ==> c[k] == c0[k]
      invariant forall k :: j < k < n - 1 - j ==> c[k] == c0[n - 1 - k]
      decreases j
    {
      var opp := n - 1 - j;
      c := c[j := c[opp]][opp := c[j]];
      j := j - 1;
    }
    ReverseByIndex(c0, c);
  }

  /** The example of the unit tests: the leading Modified directory goes, the four entries under it stay in order. */
  lemma PruneExample()
    ensures Pruned([Change("/tmp", 0), Change("/tmp/foo", 1), Change("/tmp/foo/banana", 1),
                    Change("/tmp/bar", 2), Change("/tmp/bar/banana", 2)])
         == [Change("/tmp/foo", 1), Change("/tmp/foo/banana", 1), Change("/tmp/bar", 2), Change("/tmp/bar/banana", 2)]
  {
    var cs := [Change("/tmp", 0), Change("/tmp/foo", 1), Change("/tmp/foo/banana", 1),
               Change("/tmp/bar", 2), Change("/tmp/bar/banana", 2)];
    assert KeptFrom(cs, 5) == [];
    assert KeptFrom(cs, 1) == [1, 2, 3, 4];
  }

  // ---------------------------------------------------------------- parser

  /** The two error values of the parser. */
  datatype CommandError = InvalidCommand | MissingRequiredArg

  /** The text of each parser error; the two texts differ. */
  function ErrorMessage(e: CommandError): (r: string)
    ensures r == "Invalid command" <==> e == InvalidCommand
    ensures r == "Missing required argument for command" <==> e == MissingRequiredArg
  {
    match e
    case InvalidCommand => "Invalid command"
    case MissingRequiredArg => "Missing required argument for command"
  }

  /** A parsed line: command name, arguments, and the error if any. */
  datatype Parsed = Parsed(command: string, args: string, err: Option<CommandError>)

  /** strings.SplitN(s, " ", 2): s cut at its first space, or s alone when it has none. */
  function SplitFirstSpace(s: string): (parts: seq<string>)
    ensures 1 <= |parts| <= 2
    ensures |parts| == 1 ==> parts[0] == s && ' ' !in s
    ensures |parts| == 2 ==> s == parts[0] + " " + parts[1] && ' ' !in parts[0]
  {
    var k := IndexOf(s, ' ');
    if k == |s| then [s] else [s[..k], s[k + 1..]]
  }

  /** parseCommand: a line not starting with ':' is evaluated as is; otherwise its first word selects the command. */
  function ParseCommand(input: string): (r: Parsed)
    ensures r.command == "" <==> input == ""
    ensures r.err.Some? ==> input != "" && input[0] == ':' && r.args == ""
    ensures r.err == Some(MissingRequiredArg) ==> ' ' !in input
  {
    if input == "" then Parsed("", "", None)
    else if input[0] != ':' then Parsed("eval", input, None)
    else
      var parts := SplitFirstSpace(input);
      SwitchWord(parts[0], if |parts| < 2 then None else Some(parts[1]))
  }

  /** The switch of parseCommand on the first word, given the text after its first space if there is one. */
  function SwitchWord(word: string, rest: Option<string>): (r: Parsed)
    ensures r.command == "" ==> word == ""
    ensures r.err.Some? ==> r.args == ""
    ensures r.err == Some(InvalidCommand) ==> r.command == word
    ensures r.err == Some(MissingRequiredArg) ==> rest.None?
    ensures rest.Some? && r.err.None? ==> r.args == "" || r.args == rest.value
  {
    if word == ":commit" || word == ":c" then Parsed("commit", "", None)
    else if word == ":help" || word == ":h" then Parsed("help", "", None)
    else if word == ":print" || word == ":p" then Parsed("print", "", None)
    else if word == ":history" || word == ":hs" then Parsed("history", "", None)
    else if word == ":quit" || word == ":q" then Parsed("quit", "", None)
    else if word == ":eval" || word == ":e" then
      (if rest.None? then Parsed("eval", "", Some(MissingRequiredArg)) else Parsed("eval", rest.value, None))
    else if word == ":from" || word == ":f" then
      (if rest.None? then Parsed("from", "", Some(MissingRequiredArg)) else Parsed("from", rest.value, None))
    else if word == ":run" || word == ":r" then
      (if rest.None? then Parsed("run", "", Some(MissingRequiredArg)) else Parsed("run", rest.value, None))
    else if word == ":write" || word == ":w" then
      (if rest.None? then Parsed("write", "", Some(MissingRequiredArg)) else Parsed("write", rest.value, None))
    else if word == ":back" || word == ":b" then
      (if rest.None? then Parsed("back", "1", None) else Parsed("back", rest.value, None))
    else Parsed(word, "", Some(InvalidCommand))
  }

  /** How a command treats the text after its name. */
  datatype ArgRule = NoArg | RequiredArg | DefaultArg(default: string)

  /** The spellings parseCommand's switch accepts, each with its command name and argument rule. */
  const Table: map<string, (string, ArgRule)> := map[
    ":commit" := ("commit", NoArg), ":c" := ("commit", NoArg),
    ":help" := ("help", NoArg), ":h" := ("help", NoArg),
    ":print" := ("print", NoArg), ":p" := ("print", NoArg),
    ":history" := ("history", NoArg), ":hs" := ("history", NoArg),
    ":quit" := ("quit", NoArg), ":q" := ("quit", NoArg),
    ":eval" := ("eval", RequiredArg), ":e" := ("eval", RequiredArg),
    ":from" := ("from", RequiredArg), ":f" := ("from", RequiredArg),
    ":run" := ("run", RequiredArg), ":r" := ("run", RequiredArg),
    ":write" := ("write", RequiredArg), ":w" := ("write", RequiredArg),
    ":back" := ("back", DefaultArg("1")), ":b" := ("back", DefaultArg("1"))]

  /** What the table prescribes for a colon word and the text after its first space, if any. */
  function TableParse(word: string, rest: Option<string>): Parsed
  {
    if word !in Table then Parsed(word, "", Some(InvalidCommand))
    else
      var (name, rule) := Table[word];
      match rule
      case NoArg => Parsed(name, "", None)
      case RequiredArg => if rest.None? then Parsed(name, "", Some(MissingRequiredArg)) else Parsed(name, rest.value, None)
      case DefaultArg(d) => Parsed(name, if rest.None? then d else rest.value, None)
  }

  /** The switch does what the table says, for every word and every argument. */
  lemma SwitchFollowsTable(word: string, rest: Option<string>)
    ensures SwitchWord(word, rest) == TableParse(word, rest)
  {
    if NoArgSpelling(word) {
      SwitchFollowsNoArgEntry(word, rest);
    } else if ArgSpelling(word) {
      SwitchFollowsArgEntry(word, rest);
    } else {
      assert word !in Table;
    }
  }

  /** The spellings of the table whose commands take no argument. */
  predicate NoArgSpelling(word: string)
  {
    word in Table && Table[word].1 == NoArg
  }

  /** The spellings of the table whose commands take an argument, required or defaulted. */
  predicate ArgSpelling(word: string)
  {
    word in Table && Table[word].1 != NoArg
  }

  lemma SwitchFollowsNoArgEntry(word: string, rest: Option<string>)
    requires NoArgSpelling(word)
    ensures SwitchWord(word, rest) == TableParse(word, rest)
  {
    if word == ":commit" || word == ":c" || word == ":help" || word == ":h" {
      SwitchFollowsCommitHelp(word, rest);
    } else if word == ":print" || word == ":p" {
      assert Table[word] == ("print", NoArg);
    } else {
      SwitchFollowsHistoryQuit(word, rest);
    }
  }

  lemma SwitchFollowsCommitHelp(word: string, rest: Option<string>)
    requires word == ":commit" || word == ":c" || word == ":help" || word == ":h"
    ensures SwitchWord(word, rest) == TableParse(word, rest)
  {
    if word == ":commit" || word == ":c" {
      SwitchFollowsCommit(word, rest);
    } else {
      assert Table[word] == ("help", NoArg);
    }
  }

  lemma SwitchFollowsCommit(word: string, rest: Option<string>)
    requires word == ":commit" || word == ":c"
    ensures SwitchWord(word, rest) == TableParse(word, rest)
  {
    assert Table[word] == ("commit", NoArg);
  }

  lemma SwitchFollowsHistoryQuit(word: string, rest: Option<string>)
    requires word == ":history" || word == ":hs" || word == ":quit" || word == ":q"
    ensures SwitchWord(word, rest) == TableParse(word, rest)
  {
    if word == ":history" || word == ":hs" {
      assert Table[word] == ("history", NoArg);
    } else {
      assert Table[word] == ("quit", NoArg);
    }
  }

  lemma SwitchFollowsArgEntry(word: string, rest: Option<string>)
    requires ArgSpelling(word)
    ensures SwitchWord(word, rest) == TableParse(word, rest)
  {
    if word == ":eval" || word == ":e" || word == ":from" || word == ":f" {
      SwitchFollowsEvalFrom(word, rest);
    } else if word == ":run" || word == ":r" || word == ":write" || word == ":w" {
      SwitchFollowsRunWrite(word, rest);
    } else {
      assert Table[word] == ("back", DefaultArg("1"));
    }
  }

  lemma SwitchFollowsEvalFrom(word: string, rest: Option<string>)
    requires word == ":eval" || word == ":e" || word == ":from" || word == ":f"
    ensures SwitchWord(word, rest) == TableParse(word, rest)
  {
    if word == ":eval" || word == ":e" {
      assert Table[word] == ("eval", RequiredArg);
    } else {
      assert Table[word] == ("from", RequiredArg);
    }
  }

  lemma SwitchFollowsRunWrite(word: string, rest: Option<string>)
    requires word == ":run" || word == ":r" || word == ":write" || word == ":w"
    ensures SwitchWord(word, rest) == TableParse(word, rest)
  {
    if word == ":run" || word == ":r" {
      assert Table[word] == ("run", RequiredArg);
    } else {
      assert Table[word] == ("write", RequiredArg);
    }
  }

  /** A colon word with no argument parses as the table says. */
  lemma ParseBareWord(word: string)
    requires |word| > 0 && word[0] == ':' && ' ' !in word
    ensures ParseCommand(word) == TableParse(word, None)
  {
    assert SplitFirstSpace(word) == [word];
    SwitchFollowsTable(word, None);
  }

  /** A colon word followed by a space parses as the table says, the whole remainder being the argument. */
  lemma ParseWordWithArg(word: string, rest: string)
    requires |word| > 0 && word[0] == ':' && ' ' !in word
    ensures ParseCommand(word + " " + rest) == TableParse(word, Some(rest))
  {
    var input := word + " " + rest;
    var parts := SplitFirstSpace(input);
    assert input[0] == ':';
    assert |parts| == 2 by {
      assert input[|word|] == ' ';
    }
    SplitUnique(word, rest, parts[0], parts[1]);
    SwitchFollowsTable(word, Some(rest));
  }

  /** A string cut at its first space is cut at one place only. */
  lemma SplitUnique(w1: string, r1: string, w2: string, r2: string)
    requires ' ' !in w1 && ' ' !in w2 && w1 + " " + r1 == w2 + " " + r2
    ensures w1 == w2 && r1 == r2
  {
    var s := w1 + " " + r1;
    assert s[|w1|] == ' ' && s[|w2|] == ' ';
    assert IndexOf(s, ' ') == |w1| == |w2|;
    assert w1 == s[..|w1|] == w2;
    assert r1 == s[|w1| + 1..] == r2;
  }

  /** An empty line is no command; any line not starting with ':' is evaluated verbatim. */
  lemma ParsePlainLine(input: string)
    ensures input == "" ==> ParseCommand(input) == Parsed("", "", None)
    ensures input != "" && input[0] != ':' ==> ParseCommand(input) == Parsed("eval", input, None)
  {
  }

  /*
   * The unit-test examples below take each command word as a parameter pinned
   * by `requires`. With the whole line written as one literal, the verifier
   * evaluates parseCommand on it character by character and the proof
   * becomes too expensive; with the word as a parameter it applies the
   * general lemmas ParseWordWithArg and ParseBareWord instead.
   */

  /** Unit-test cases: commands that take no argument drop the text after the word. */
  lemma ParseExamplesNoArg(help: string, commit: string)
    requires help == ":help" && commit == ":commit"
    ensures ParseCommand(help + " " + "me") == Parsed("help", "", None)
    ensures ParseCommand(commit + " " + "this") == Parsed("commit", "", None)
  {
    ParseWordWithArg(help, "me");
    assert Table[help] == ("help", NoArg);
    ParseWordWithArg(commit, "this");
    assert Table[commit] == ("commit", NoArg);
  }

  /** Unit-test case: print drops its argument too. */
  lemma ParseExamplesPrint(printWord: string)
    requires printWord == ":print"
    ensures ParseCommand(printWord + " " + "this") == Parsed("print", "", None)
  {
    ParseWordWithArg(printWord, "this");
    assert Table[printWord] == ("print", NoArg);
  }

  /** Unit-test cases: eval and run keep everything after the first space, spaces included. */
  lemma ParseExamplesEvalRun(eval: string, run: string)
    requires eval == ":eval" && run == ":r"
    ensures ParseCommand(eval + " " + "apt-get update") == Parsed("eval", "apt-get update", None)
    ensures ParseCommand(run + " " + "apt-get update") == Parsed("run", "apt-get update", None)
  {
    ParseWordWithArg(eval, "apt-get update");
    assert Table[eval] == ("eval", RequiredArg);
    ParseWordWithArg(run, "apt-get update");
    assert Table[run] == ("run", RequiredArg);
  }

  /** Unit-test cases: from and write take their argument as is. */
  lemma ParseExamplesFromWrite(from: string, write: string)
    requires from == ":f" && write == ":w"
    ensures ParseCommand(from + " " + "ubuntu:latest") == Parsed("from", "ubuntu:latest", None)
    ensures ParseCommand(write + " " + "Dockerfile") == Parsed("write", "Dockerfile", None)
  {
    ParseWordWithArg(from, "ubuntu:latest");
    assert Table[from] == ("from", RequiredArg);
    ParseWordWithArg(write, "Dockerfile");
    assert Table[write] == ("write", RequiredArg);
  }

  /** Unit-test cases of a bare word that needs no argument, or whose argument has a default. */
  lemma ParseExamplesBare(h: string, b: string)
    requires h == ":h" && b == ":b"
    ensures ParseCommand(h) == Parsed("help", "", None)
    ensures ParseCommand(b) == Parsed("back", "1", None)
  {
    ParseBareWord(h);
    assert Table[h] == ("help", NoArg);
    ParseBareWord(b);
    assert Table[b] == ("back", DefaultArg("1"));
  }

  /** Unit-test cases of a bare word whose argument is required. */
  lemma ParseExamplesMissingArg(e: string, from: string)
    requires e == ":e" && from == ":from"
    ensures ParseCommand(e) == Parsed("eval", "", Some(MissingRequiredArg))
    ensures ParseCommand(from) == Parsed("from", "", Some(MissingRequiredArg))
  {
    ParseBareWord(e);
    assert Table[e] == ("eval", RequiredArg);
    ParseBareWord(from);
    assert Table[from] == ("from", RequiredArg);
  }

  /** Unit-test cases: an unknown word, a plain line and an empty line. */
  lemma ParseExamplesOther(notreal: string, plain: string)
    requires notreal == ":notreal" && plain == "apt-get update"
    ensures ParseCommand(notreal) == Parsed(":notreal", "", Some(InvalidCommand))
    ensures ParseCommand(plain) == Parsed("eval", "apt-get update", None)
    ensures ParseCommand("") == Parsed("", "", None)
  {
    assert notreal !in Table;
    ParseBareWord(notreal);
    ParsePlainLine(plain);
  }
}
