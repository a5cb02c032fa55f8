/** The sliding window of tailLines, and the clamp that makes its indexing safe. */
module Tail {
  import opened Options
  import opened GoText

  /** The limit clamp of Snapshot. */
  function ClampLimit(limit: int): (r: nat)
    ensures 1 <= r <= 200
    ensures 1 <= limit <= 200 ==> r == limit
    ensures !(1 <= limit <= 200) ==> r == 60
  {
    if limit <= 0 || limit > 200 then 60 else limit
  }

  /** The trimmed lines that are not blank, in order. */
  function KeptLines(lines: seq<string>): seq<string> {
    if lines == [] then []
    else
      var text := TrimSpace(lines[|lines| - 1]);
      KeptLines(lines[..|lines| - 1]) + (if text == "" then [] else [text])
  }

  function Last(s: seq<string>, n: nat): seq<string> {
    if |s| <= n then s else s[|s| - n..]
  }

  lemma LastSnoc(s: seq<string>, n: nat, x: string)
    requires n >= 1
    ensures Last(s + [x], n) == if |Last(s, n)| < n then Last(s, n) + [x] else Last(s, n)[1..] + [x]
  {
  }

  lemma LastOfNone(n: nat)
    ensures Last([], n) == []
  {
  }

  lemma KeptLinesSnoc(lines: seq<string>, i: nat)
    requires i < |lines|
    ensures KeptLines(lines[..i + 1]) ==
      if TrimSpace(lines[i]) == "" then KeptLines(lines[..i]) else KeptLines(lines[..i]) + [TrimSpace(lines[i])]
  {
    assert lines[..i + 1][..i] == lines[..i];
  }

  /** The kept lines are the cores of the lines at the ascending positions `at`; all others are blank. */
  ghost predicate KeptFrom(kept: seq<string>, lines: seq<string>, at: seq<nat>) {
    && |at| == |kept|
    && (forall i, j :: 0 <= i < j < |at| ==> at[i] < at[j])
    && (forall i :: 0 <= i < |at| ==> at[i] < |lines| && kept[i] != "" && IsCore(kept[i], lines[at[i]]))
    && forall j :: 0 <= j < |lines| && j !in at ==> AllSpace(lines[j])
  }

  lemma BlankIsAllSpace(line: string)
    ensures IsCore(TrimSpace(line), line)
    ensures TrimSpace(line) == "" ==> AllSpace(line)
  {
    TrimSpaceExactly(line, TrimSpace(line));
    if TrimSpace(line) == "" {
      var i: nat, j: nat :| CoreAt("", line, i, j);
      SpaceAround("", line, i, j);
    }
  }

  lemma {:induction false} KeptLinesExactly(lines: seq<string>) returns (at: seq<nat>)
    ensures KeptFrom(KeptLines(lines), lines, at)
  {
    hide TrimSpace, IsCore, AllSpace;
    at := [];
    if lines != [] {
      var n := |lines| - 1;
      at := KeptLinesExactly(lines[..n]);
      BlankIsAllSpace(lines[n]);
      if TrimSpace(lines[n]) != "" {
        at := at + [n];
      }
      assert forall j :: 0 <= j < n ==> lines[..n][j] == lines[j];
    }
  }

  /** The tail holds, trimmed, the lines at the ascending positions `at`; every other line is blank, or it
      is older than these and the tail is full. */
  ghost predicate NewestKept(tail: seq<string>, lines: seq<string>, at: seq<nat>, limit: nat) {
    && |at| == |tail| <= limit
    && (forall i, j :: 0 <= i < j < |at| ==> at[i] < at[j])
    && (forall i :: 0 <= i < |at| ==> at[i] < |lines| && tail[i] != "" && IsCore(tail[i], lines[at[i]]))
    && forall j :: 0 <= j < |lines| && j !in at ==> AllSpace(lines[j]) || (|tail| == limit > 0 && j < at[0])
  }

  lemma LastIsNewest(lines: seq<string>, limit: nat) returns (at: seq<nat>)
    requires limit >= 1
    ensures NewestKept(Last(KeptLines(lines), limit), lines, at, limit)
  {
    hide IsCore, AllSpace;
    var all := KeptLinesExactly(lines);
    at := if |all| <= limit then all else all[|all| - limit..];
    if |all| > limit {
      var cut := |all| - limit;
      forall j | 0 <= j < |lines| && j !in at && j in all
        ensures j < at[0]
      {
        var k :| 0 <= k < |all| && all[k] == j;
        assert all[cut] == at[0] && all[cut..] == at;
        assert j in at || k < cut;
      }
    }
  }

  /** copy(lines, lines[1:]) on a full window. */
  method ShiftLeft(a: array<string>)
    requires a.Length >= 1
    modifies a
    ensures a[..a.Length - 1] == old(a[1..])
  {
    var k := 0;
    while k < a.Length - 1
      invariant 0 <= k <= a.Length - 1
      invariant forall j :: 0 <= j < k ==> a[j] == old(a[j + 1])
      invariant forall j :: k <= j < a.Length ==> a[j] == old(a[j])
    {
      a[k] := a[k + 1];
      k := k + 1;
    }
  }

  /** One more line for the window, which is the slice `window[..count]`: it is appended while there is
      room; once full the window is shifted in place and its last slot overwritten. */
  method Push(window: array<string>, count: nat, text: string) returns (newCount: nat)
    requires 1 <= window.Length && count <= window.Length
    modifies window
    ensures newCount <= window.Length
    ensures window[..newCount] == (if count < window.Length then old(window[..count]) else old(window[1..count])) + [text]
  {
    if count == window.Length {
      ShiftLeft(window);
      window[count - 1] := text;
      newCount := count;
    } else {
      window[count] := text;
      newCount := count + 1;
    }
  }

  /** `lines` is what the scanner yields, `failed` whether it then reports an error. */
  method TailLines(lines: seq<string>, failed: bool, limit: nat) returns (r: Result<seq<string>>)
    requires limit >= 1
    ensures r.Err? <==> failed
    ensures r.Ok? ==> r.value == Last(KeptLines(lines), limit)
    ensures r.Ok? ==> exists at :: NewestKept(r.value, lines, at, limit)
  {
    hide TrimSpace, Last;
    var window := new string[limit](_ => "");
    var count := 0;
    LastOfNone(limit);
    var i := 0;
    while i < |lines|
      invariant 0 <= i <= |lines| && 0 <= count <= limit
      invariant window[..count] == Last(KeptLines(lines[..i]), limit)
    {
      ghost var seen := KeptLines(lines[..i]);
      KeptLinesSnoc(lines, i);
      var text := TrimSpace(lines[i]);
      i := i + 1;
      if text != "" {
        LastSnoc(seen, limit, text);
        count := Push(window, count, text);
      }
    }
    assert lines[..i] == lines;
    if failed {
      return Err("unable to read");
    }
    ghost var at := LastIsNewest(lines, limit);
    r := Ok(window[..count]);
  }

  /** fileSection's call of tailLines with the limit that Snapshot passes on. */
  method SnapshotTail(lines: seq<string>, limit: int) returns (tail: seq<string>)
    ensures |tail| <= 200
    ensures tail == Last(KeptLines(lines), ClampLimit(limit))
  {
    var clamped := limit;
    if clamped <= 0 || clamped > 200 {
      clamped := 60;
    }
    var r := TailLines(lines, false, clamped);
    tail := r.value;
  }

  /** The window holds the newest lines: line i from the end of the tail is line i from the end of all
      trimmed non-blank lines, and nothing newer is missing. */
  lemma TailIsNewest(lines: seq<string>, limit: nat, i: nat)
    requires i < |Last(KeptLines(lines), limit)|
    ensures |Last(KeptLines(lines), limit)| == if |KeptLines(lines)| < limit then |KeptLines(lines)| else limit
    ensures Last(KeptLines(lines), limit)[|Last(KeptLines(lines), limit)| - 1 - i] == KeptLines(lines)[|KeptLines(lines)| - 1 - i]
  {
  }

  /** No line of a tail is blank or carries white space at an end, so a CR before the LF is gone too. */
  lemma {:induction false} KeptLinesHaveNoBlanks(lines: seq<string>)
    ensures |KeptLines(lines)| <= |lines|
    ensures forall i :: 0 <= i < |KeptLines(lines)| ==>
      KeptLines(lines)[i] != "" && !IsSpace(KeptLines(lines)[i][0]) && !IsSpace(KeptLines(lines)[i][|KeptLines(lines)[i]| - 1])
  {
    if lines != [] {
      KeptLinesHaveNoBlanks(lines[..|lines| - 1]);
      TrimSpaceFixes(lines[|lines| - 1]);
    }
  }
}
