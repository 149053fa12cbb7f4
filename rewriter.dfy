/**
 * The source mutation engine: the recorded locations are grouped by file, each
 * group's start offsets are ordered by descending offset, and for each one the
 * whole line holding it is removed from the file's text, which is reassigned
 * after every removal. The final text of every group is written back.
 *
 * The main result, RemovalsDeleteLines: when the offsets of a file lie on
 * pairwise distinct lines of the original text, removing them in descending
 * order deletes exactly those original lines and leaves every other character
 * in place and in order.
 */
module Rewriter {
  import opened Entities
  import opened TextLines

  /** What removing a group's lines from one text produces. */
  datatype Edit =
    | Rewritten(text: seq<char>)
      /** The line lookup was given a position past the end of the current text. */
    | OutOfRange(position: nat)

  datatype Write = Write(file: string, text: seq<char>)

  /** The run stopped while rewriting this file, at this position. */
  datatype Failure = PositionOutOfRange(file: string, position: nat)

  // ---------------------------------------------------------------------------
  // Ordering by descending start offset

  predicate Descending(s: seq<nat>)
  {
    forall i, j :: 0 <= i < j < |s| ==> s[i] >= s[j]
  }

  lemma DescendingCons(h: nat, s: seq<nat>)
    requires Descending(s) && (s == [] || s[0] <= h)
    ensures Descending([h] + s)
  {
    var r := [h] + s;
    forall i, j | 0 <= i < j < |r| ensures r[i] >= r[j] {
      if i == 0 { assert r[j] == s[j - 1] <= s[0]; } else { assert r[i] == s[i - 1] && r[j] == s[j - 1]; }
    }
  }

  lemma DescendingTail(s: seq<nat>)
    requires Descending(s) && s != []
    ensures Descending(s[1..])
  {
    var tail := s[1..];
    forall i, j | 0 <= i < j < |tail| ensures tail[i] >= tail[j] {
      assert tail[i] == s[i + 1] && tail[j] == s[j + 1];
    }
  }

  lemma MultisetCons(h: nat, s: seq<nat>)
    ensures multiset([h] + s) == multiset{h} + multiset(s)
  {
  }

  function Insert(x: nat, s: seq<nat>): (r: seq<nat>)
    requires Descending(s)
    ensures Descending(r)
    ensures multiset(r) == multiset(s) + multiset{x}
    ensures |r| == |s| + 1 && (r[0] == x || (s != [] && r[0] == s[0]))
  {
    if s == [] || x >= s[0] then
      DescendingCons(x, s);
      MultisetCons(x, s);
      [x] + s
    else
      var h, tail := s[0], s[1..];
      DescendingTail(s);
      var rest := Insert(x, tail);
      assert s == [h] + tail;
      MultisetCons(h, tail);
      MultisetCons(h, rest);
      assert tail != [] ==> tail[0] <= h;
      DescendingCons(h, rest);
      [h] + rest
  }

  /** The offsets in descending order, repeats kept. */
  function SortDescending(s: seq<nat>): (r: seq<nat>)
    ensures Descending(r)
    ensures multiset(r) == multiset(s)
  {
    if s == [] then []
    else
      assert s == [s[0]] + s[1..];
      Insert(s[0], SortDescending(s[1..]))
  }

  // ---------------------------------------------------------------------------
  // Grouping by file

  /** The files of the locations, each once, in order of first appearance. */
  function Files(locs: seq<Location>): (r: seq<string>)
    ensures forall i, j :: 0 <= i < j < |r| ==> r[i] != r[j]
  {
    if locs == [] then []
    else
      var init := locs[..|locs| - 1];
      var l := locs[|locs| - 1];
      assert locs == init + [l];
      Files(init) + (if l.file in Files(init) then [] else [l.file])
  }

  /** Every group is the group of a location's file. */
  lemma {:induction false} FilesSound(locs: seq<Location>, f: string)
    requires f in Files(locs)
    ensures exists l :: l in locs && l.file == f
    decreases |locs|
  {
    var init := locs[..|locs| - 1];
    assert locs == init + [locs[|locs| - 1]];
    if f in Files(init) {
      FilesSound(init, f);
    }
  }

  /** Every file that has a location has a group. */
  lemma {:induction false} FilesComplete(locs: seq<Location>, l: Location)
    requires l in locs
    ensures l.file in Files(locs)
    decreases |locs|
  {
    var init := locs[..|locs| - 1];
    assert locs == init + [locs[|locs| - 1]];
    if l in init {
      FilesComplete(init, l);
    }
  }

  /** The start offsets of the locations in file f, in their original order. */
  function GroupStarts(locs: seq<Location>, f: string): (r: seq<nat>)
    ensures |r| <= |locs|
  {
    if locs == [] then []
    else
      var l := locs[|locs| - 1];
      GroupStarts(locs[..|locs| - 1], f) + (if l.file == f then [l.start] else [])
  }

  /** A group holds the start of every location in its file, and nothing else. */
  lemma {:induction false} GroupStartsMembers(locs: seq<Location>, f: string, o: nat)
    ensures o in GroupStarts(locs, f) <==> exists l :: l in locs && l.file == f && l.start == o
    decreases |locs|
  {
    if locs != [] {
      var init := locs[..|locs| - 1];
      assert locs == init + [locs[|locs| - 1]];
      GroupStartsMembers(init, f, o);
    }
  }

  // ---------------------------------------------------------------------------
  // Removal of lines

  /** The removal loop over offsets already in processing order. */
  function ApplyRemovals(t: seq<char>, offsets: seq<nat>): (r: Edit)
    ensures r.Rewritten? ==> |r.text| <= |t|
    ensures r.OutOfRange? ==> r.position in offsets
    decreases |offsets|
  {
    if offsets == [] then Rewritten(t)
    else if offsets[0] > |t| then OutOfRange(offsets[0])
    else ApplyRemovals(RemoveLine(t, offsets[0]), offsets[1..])
  }

  predicate InRange(t: seq<char>, offsets: seq<nat>)
  {
    forall i :: 0 <= i < |offsets| ==> offsets[i] <= |t|
  }

  /** Every offset is a position of t, and no two entries are on the same line. */
  predicate OnDistinctLines(t: seq<char>, offsets: seq<nat>)
  {
    && InRange(t, offsets)
    && forall i, j :: 0 <= i < |offsets| && 0 <= j < |offsets| && i != j ==>
         LineOf(t, offsets[i]) != LineOf(t, offsets[j])
  }

  /** The original line numbers of the offsets. */
  function LinesOf(t: seq<char>, offsets: seq<nat>): (r: set<nat>)
    requires InRange(t, offsets)
  {
    set i | 0 <= i < |offsets| :: LineOf(t, offsets[i])
  }

  /**
   * Descending removal of offsets on distinct lines deletes exactly their
   * original lines: each removal leaves the text before its line unchanged,
   * so the smaller offsets still to come point into the same original lines.
   */
  lemma {:induction false} RemovalsDeleteLines(t: seq<char>, offsets: seq<nat>)
    requires Descending(offsets)
    requires OnDistinctLines(t, offsets)
    ensures ApplyRemovals(t, offsets) == Rewritten(Keep(t, LinesOf(t, offsets)))
    decreases |offsets|
  {
    if offsets == [] {
      KeepNothing(t, LinesOf(t, offsets));
    } else {
      var o0, rest := offsets[0], offsets[1..];
      var k0, ls := LineOf(t, o0), LineStart(t, o0);
      var t' := RemoveLine(t, o0);
      RemoveLineStep(t, o0, {});
      LineOfNoBreak(t, ls, o0);
      forall j | 0 <= j < |rest|
        ensures rest[j] < ls && LineOf(t', rest[j]) == LineOf(t, rest[j]) == LineOf(t, offsets[j + 1]) < k0
      {
        assert rest[j] == offsets[j + 1] && offsets[0] >= offsets[j + 1];
        LineOfMonotone(t, rest[j], o0);
        if ls <= rest[j] {
          LineOfMonotone(t, ls, rest[j]);
        }
        LineOfPrefix(t', ls, rest[j]);
        LineOfPrefix(t, ls, rest[j]);
      }
      assert InRange(t', rest);
      RemovalsDeleteLines(t', rest);
      var lines := LinesOf(t, rest);
      assert LinesOf(t', rest) == lines;
      RemoveLineStep(t, o0, lines);
      assert lines + {k0} == LinesOf(t, offsets);
    }
  }

  // ---------------------------------------------------------------------------
  // Distinct lines survive reordering

  lemma {:induction false} NoRepeats(t: seq<char>, s: seq<nat>, v: nat)
    requires OnDistinctLines(t, s)
    ensures multiset(s)[v] <= 1
    decreases |s|
  {
    if s != [] {
      var rest := s[1..];
      assert s == [s[0]] + rest;
      assert OnDistinctLines(t, rest) by {
        forall i, j | 0 <= i < |rest| && 0 <= j < |rest| && i != j
          ensures LineOf(t, rest[i]) != LineOf(t, rest[j])
        {
          assert rest[i] == s[i + 1] && rest[j] == s[j + 1];
        }
      }
      NoRepeats(t, rest, v);
    }
  }

  lemma RepeatCounts(s: seq<nat>, i: nat, j: nat)
    requires i < j < |s| && s[i] == s[j]
    ensures multiset(s)[s[i]] >= 2
  {
    assert s == s[..j] + s[j..];
    assert s[i] in s[..j] && s[j] in s[j..];
  }

  lemma DistinctLinesPermutation(t: seq<char>, a: seq<nat>, b: seq<nat>)
    requires multiset(a) == multiset(b)
    requires OnDistinctLines(t, a)
    ensures OnDistinctLines(t, b)
  {
    forall i | 0 <= i < |b| ensures b[i] <= |t| {
      assert b[i] in multiset(a);
    }
    forall i, j | 0 <= i < |b| && 0 <= j < |b| && i != j
      ensures LineOf(t, b[i]) != LineOf(t, b[j])
    {
      if b[i] == b[j] {
        NoRepeats(t, a, b[i]);
        if i < j { RepeatCounts(b, i, j); } else { RepeatCounts(b, j, i); }
        assert false;
      } else {
        assert b[i] in multiset(a) && b[j] in multiset(a);
        var i' :| 0 <= i' < |a| && a[i'] == b[i];
        var j' :| 0 <= j' < |a| && a[j'] == b[j];
      }
    }
  }

  // ---------------------------------------------------------------------------
  // The engine

  /**
   * One group: order its offsets descending and remove the line of each from
   * the text in turn. A position past the end of the current text stops the run.
   */
  method RewriteFile(text: seq<char>, starts: seq<nat>) returns (r: Edit)
    ensures r == ApplyRemovals(text, SortDescending(starts))
    ensures OnDistinctLines(text, starts) ==> r == Rewritten(Keep(text, LinesOf(text, starts)))
    ensures starts == [] ==> r == Rewritten(text)
  {
    var ordered := SortDescending(starts);
    var current := text;
    var i := 0;
    while i < |ordered|
      invariant 0 <= i <= |ordered|
      invariant ApplyRemovals(current, ordered[i..]) == ApplyRemovals(text, ordered)
    {
      var start := ordered[i];
      assert ordered[i..][0] == start;
      if start > |current| {
        r := OutOfRange(start);
        ProveRewriteFile(text, starts, ordered, r);
        return;
      }
      assert ordered[i..][1..] == ordered[i + 1..];
      current := RemoveLine(current, start);
      i := i + 1;
    }
    r := Rewritten(current);
    ProveRewriteFile(text, starts, ordered, r);
  }

  lemma LinesOfPermutation(t: seq<char>, a: seq<nat>, b: seq<nat>)
    requires multiset(a) == multiset(b)
    requires InRange(t, a) && InRange(t, b)
    ensures LinesOf(t, a) == LinesOf(t, b)
  {
    forall x | x in LinesOf(t, a) ensures x in LinesOf(t, b) {
      var i :| 0 <= i < |a| && x == LineOf(t, a[i]);
      assert a[i] in multiset(b);
      var j :| 0 <= j < |b| && b[j] == a[i];
    }
    forall x | x in LinesOf(t, b) ensures x in LinesOf(t, a) {
      var j :| 0 <= j < |b| && x == LineOf(t, b[j]);
      assert b[j] in multiset(a);
      var i :| 0 <= i < |a| && a[i] == b[j];
    }
  }

  lemma ProveRewriteFile(text: seq<char>, starts: seq<nat>, ordered: seq<nat>, r: Edit)
    requires ordered == SortDescending(starts)
    requires r == ApplyRemovals(text, ordered)
    ensures OnDistinctLines(text, starts) ==> r == Rewritten(Keep(text, LinesOf(text, starts)))
    ensures starts == [] ==> r == Rewritten(text)
  {
    if OnDistinctLines(text, starts) {
      DistinctLinesPermutation(text, starts, ordered);
      RemovalsDeleteLines(text, ordered);
      LinesOfPermutation(text, starts, ordered);
    }
    if starts == [] {
      assert |ordered| == |multiset(ordered)| == 0;
    }
  }

  /** The final text of file f, as RewriteFile produces it from its original text. */
  function Rewrite(locs: seq<Location>, source: string -> seq<char>, f: string): (r: Edit)
    ensures r.Rewritten? ==> |r.text| <= |source(f)|
    ensures r.OutOfRange? ==> r.position in GroupStarts(locs, f)
  {
    var ordered := SortDescending(GroupStarts(locs, f));
    assert forall o :: o in ordered ==> o in multiset(ordered);
    ApplyRemovals(source(f), ordered)
  }

  /** In every file, the recorded locations are on pairwise distinct lines. */
  predicate AllOnDistinctLines(locs: seq<Location>, source: string -> seq<char>)
  {
    forall f :: f in Files(locs) ==> OnDistinctLines(source(f), GroupStarts(locs, f))
  }

  /** Text f is its original with exactly the lines of its locations deleted. */
  predicate LinesDeleted(locs: seq<Location>, source: string -> seq<char>, w: Write)
  {
    && OnDistinctLines(source(w.file), GroupStarts(locs, w.file))
    && w.text == Keep(source(w.file), LinesOf(source(w.file), GroupStarts(locs, w.file)))
  }

  /** The writes are the first groups' files, in order, each with its rewritten text. */
  predicate WrittenInOrder(locs: seq<Location>, source: string -> seq<char>, writes: seq<Write>)
  {
    && |writes| <= |Files(locs)|
    && forall i :: 0 <= i < |writes| ==>
         writes[i].file == Files(locs)[i] && Rewrite(locs, source, writes[i].file) == Rewritten(writes[i].text)
  }

  /**
   * All groups, in order of their files' first appearance. Each file is written
   * once, after all its removals; a failing group stops the run with the
   * earlier files already written (there is no rollback).
   */
  method RewriteAll(locs: seq<Location>, source: string -> seq<char>)
    returns (writes: seq<Write>, failure: Option<Failure>)
    ensures WrittenInOrder(locs, source, writes)
    ensures failure == None <==> |writes| == |Files(locs)|
    ensures failure != None ==>
      var f := Files(locs)[|writes|];
      Rewrite(locs, source, f).OutOfRange? && failure == Some(PositionOutOfRange(f, Rewrite(locs, source, f).position))
  {
    var files := Files(locs);
    writes := [];
    failure := None;
    var i := 0;
    while i < |files|
      invariant 0 <= i <= |files| && |writes| == i
      invariant WrittenInOrder(locs, source, writes)
    {
      var f := files[i];
      var r := RewriteFile(source(f), GroupStarts(locs, f));
      if r.OutOfRange? {
        failure := Some(PositionOutOfRange(f, r.position));
        return;
      }
      WrittenInOrderAppend(locs, source, writes, r.text);
      writes := writes + [Write(f, r.text)];
      i := i + 1;
    }
  }

  lemma WrittenInOrderAppend(locs: seq<Location>, source: string -> seq<char>, writes: seq<Write>, text: seq<char>)
    requires WrittenInOrder(locs, source, writes) && |writes| < |Files(locs)|
    requires Rewrite(locs, source, Files(locs)[|writes|]) == Rewritten(text)
    ensures WrittenInOrder(locs, source, writes + [Write(Files(locs)[|writes|], text)])
  {
    var writes' := writes + [Write(Files(locs)[|writes|], text)];
    forall i | 0 <= i < |writes'|
      ensures writes'[i].file == Files(locs)[i] && Rewrite(locs, source, writes'[i].file) == Rewritten(writes'[i].text)
    {
      if i < |writes| {
        assert writes'[i] == writes[i];
      }
    }
  }

  /** Every written file has a location, and no file is written twice. */
  lemma WritesHaveLocations(locs: seq<Location>, source: string -> seq<char>, writes: seq<Write>)
    requires WrittenInOrder(locs, source, writes)
    ensures forall w :: w in writes ==> exists l :: l in locs && l.file == w.file
    ensures forall i, j :: 0 <= i < j < |writes| ==> writes[i].file != writes[j].file
  {
    forall w | w in writes ensures exists l :: l in locs && l.file == w.file {
      var k :| 0 <= k < |writes| && writes[k] == w;
      FilesSound(locs, Files(locs)[k]);
    }
  }

  /** When every group was written, every location's file was written. */
  lemma WritesCoverLocations(locs: seq<Location>, source: string -> seq<char>, writes: seq<Write>)
    requires WrittenInOrder(locs, source, writes) && |writes| == |Files(locs)|
    ensures forall l :: l in locs ==> exists w :: w in writes && w.file == l.file
  {
    forall l | l in locs ensures exists w :: w in writes && w.file == l.file {
      FilesComplete(locs, l);
      var k :| 0 <= k < |Files(locs)| && Files(locs)[k] == l.file;
      assert writes[k] in writes;
    }
  }

  /** On distinct lines, every group's rewrite succeeds and deletes exactly its lines. */
  lemma GroupsDeleteLines(locs: seq<Location>, source: string -> seq<char>)
    requires AllOnDistinctLines(locs, source)
    ensures forall f :: f in Files(locs) ==>
      Rewrite(locs, source, f) == Rewritten(Keep(source(f), LinesOf(source(f), GroupStarts(locs, f))))
  {
    forall f | f in Files(locs)
      ensures Rewrite(locs, source, f) == Rewritten(Keep(source(f), LinesOf(source(f), GroupStarts(locs, f))))
    {
      var starts := GroupStarts(locs, f);
      ProveRewriteFile(source(f), starts, SortDescending(starts), Rewrite(locs, source, f));
    }
  }

  /** What follows from the order of the writes and how each write was computed. */
  lemma WrittenFiles(locs: seq<Location>, source: string -> seq<char>, writes: seq<Write>, failure: Option<Failure>)
    requires WrittenInOrder(locs, source, writes)
    requires failure == None <==> |writes| == |Files(locs)|
    requires failure != None ==> Rewrite(locs, source, Files(locs)[|writes|]).OutOfRange?
    ensures forall w :: w in writes ==> exists l :: l in locs && l.file == w.file
    ensures failure == None ==> forall l :: l in locs ==> exists w :: w in writes && w.file == l.file
    ensures forall i, j :: 0 <= i < j < |writes| ==> writes[i].file != writes[j].file
    ensures AllOnDistinctLines(locs, source) ==>
      failure == None && forall i :: 0 <= i < |writes| ==> LinesDeleted(locs, source, writes[i])
  {
    WritesHaveLocations(locs, source, writes);
    if failure == None {
      WritesCoverLocations(locs, source, writes);
    }
    if AllOnDistinctLines(locs, source) {
      GroupsDeleteLines(locs, source);
      forall i | 0 <= i < |writes| ensures LinesDeleted(locs, source, writes[i]) {
        assert writes[i].file in Files(locs);
      }
    }
  }
}
