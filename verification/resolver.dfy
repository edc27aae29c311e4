/**
 * `getPreviousValue(object, changes, path)`: the decisions of the entry point,
 * up to the point where it holds the live value to revert (the anchor), the
 * batches and the query path re-rooted below the anchor. Folding the batches
 * onto the anchor is left to a caller-supplied merge (see `PreviousValue`).
 */
module Resolver {
  import opened Wrappers
  import opened Strings
  import opened Document
  import opened UndoChange
  import opened Batches

  /** The one error the entry point raises itself (line 159). */
  datatype Error = NotAJsonPointer(path: string)

  /** Where the entry point ends up: a value returned directly, or a revert to perform. */
  datatype Resolution =
    | Value(value: Json)
    | Revert(anchor: Json, batches: seq<Node>, rerooted: string)

  /** `changes.find(c => c.path === path)`, as the index of the first match. */
  function FindPath(changes: seq<Change>, path: string): (r: Option<nat>)
    ensures r.Some? ==> r.value < |changes| && changes[r.value].path == path
    ensures r.Some? ==> forall j :: 0 <= j < r.value ==> changes[j].path != path
    ensures r.None? ==> forall j :: 0 <= j < |changes| ==> changes[j].path != path
    decreases |changes|
  {
    if changes == [] then None
    else if changes[0].path == path then Some(0)
    else
      match FindPath(changes[1..], path)
      case None => None
      case Some(j) => Some(j + 1)
  }

  /** The change at `a` affects the query at `b`: one is an ancestor of the other. */
  predicate Overlaps(a: string, b: string)
  {
    IsAncestor(a, b) || IsAncestor(b, a)
  }

  /** `changes.filter(...)` at line 164: the changes that overlap the query, in log order. */
  function Affected(changes: seq<Change>, path: string): (r: seq<Change>)
    ensures forall c :: c in r <==> c in changes && Overlaps(c.path, path)
    ensures |r| <= |changes|
    decreases |changes|
  {
    if changes == [] then []
    else (if Overlaps(changes[0].path, path) then [changes[0]] else []) + Affected(changes[1..], path)
  }

  /** Filtering a concatenation filters each part. */
  lemma {:induction false} AffectedAppend(a: seq<Change>, b: seq<Change>, path: string)
    ensures Affected(a + b, path) == Affected(a, path) + Affected(b, path)
    decreases |a|
  {
    if a == [] {
      assert a + b == b;
    } else {
      assert (a + b)[0] == a[0];
      assert (a + b)[1..] == a[1..] + b;
      AffectedAppend(a[1..], b, path);
    }
  }

  /**
   * The `reduce` at lines 166-167, from `current`: a path replaces the current
   * one unless it is strictly longer.
   */
  function ShortestPath(affected: seq<Change>, current: string): string
    decreases |affected|
  {
    if affected == [] then current
    else
      var next := if |affected[0].path| > |current| then current else affected[0].path;
      ShortestPath(affected[1..], next)
  }

  /**
   * The reduction returns a path no longer than the initial one or than any
   * change's path.
   */
  lemma {:induction false} ShortestPathBounds(affected: seq<Change>, init: string)
    ensures |ShortestPath(affected, init)| <= |init|
    ensures forall i :: 0 <= i < |affected| ==> |ShortestPath(affected, init)| <= |affected[i].path|
    decreases |affected|
  {
    if affected != [] {
      var next := if |affected[0].path| > |init| then init else affected[0].path;
      ShortestPathBounds(affected[1..], next);
      assert forall i :: 1 <= i < |affected| ==> affected[i] == affected[1..][i - 1];
    }
  }

  /** The reduction returns the initial path or the path of one of the changes. */
  lemma {:induction false} ShortestPathMember(affected: seq<Change>, init: string)
    ensures ShortestPath(affected, init) == init
         || exists i :: 0 <= i < |affected| && affected[i].path == ShortestPath(affected, init)
    decreases |affected|
  {
    if affected != [] {
      var next := if |affected[0].path| > |init| then init else affected[0].path;
      var tail := affected[1..];
      var r := ShortestPath(tail, next);
      ShortestPathMember(tail, next);
      if r != next {
        var k :| 0 <= k < |tail| && tail[k].path == r;
        assert affected[k + 1].path == r;
      }
    }
  }

  /**
   * Ties go to the later change: if the change at `i` has a path of the
   * returned length, the returned path is that of a change at or after `i`,
   * so of the last such change, and any of them beats the initial path.
   */
  lemma {:induction false} ShortestPathLastWins(affected: seq<Change>, init: string, i: nat)
    requires i < |affected| && |affected[i].path| == |ShortestPath(affected, init)|
    ensures exists j :: i <= j < |affected| && affected[j].path == ShortestPath(affected, init)
    decreases i
  {
    var next := if |affected[0].path| > |init| then init else affected[0].path;
    var tail := affected[1..];
    var r := ShortestPath(tail, next);
    assert r == ShortestPath(affected, init);
    if i == 0 {
      ShortestPathBounds(tail, next);
      ShortestPathMember(tail, next);
      if r == next {
        assert affected[0].path == r;
      } else {
        var k :| 0 <= k < |tail| && tail[k].path == r;
        assert affected[k + 1].path == r;
      }
    } else {
      assert tail[i - 1] == affected[i];
      ShortestPathLastWins(tail, next, i - 1);
      var k :| i - 1 <= k < |tail| && tail[k].path == r;
      assert affected[k + 1] == tail[k];
    }
  }

  /**
   * Because every affected change overlaps the query, the shortest path is an
   * ancestor-or-self of the query and of every affected change.
   */
  lemma ShortestIsCommonAncestor(affected: seq<Change>, path: string)
    requires forall i :: 0 <= i < |affected| ==> Overlaps(affected[i].path, path)
    ensures AncestorOrSelf(ShortestPath(affected, path), path)
    ensures forall i :: 0 <= i < |affected| ==> AncestorOrSelf(ShortestPath(affected, path), affected[i].path)
  {
    var r := ShortestPath(affected, path);
    ShortestPathBounds(affected, path);
    ShortestPathMember(affected, path);
    if r != path {
      var k :| 0 <= k < |affected| && affected[k].path == r;
      assert Overlaps(affected[k].path, path);
    }
    forall i | 0 <= i < |affected| ensures AncestorOrSelf(r, affected[i].path) {
      var p := affected[i].path;
      if IsAncestor(p, path) {
        AncestorsNested(r, p, path);
      } else if r != path {
        AncestorTransitive(r, path, p);
      }
    }
  }

  /**
   * The entry point's decisions. An invalid pointer fails before anything
   * else; an empty log, a change at the query itself, or a log with no change
   * overlapping the query gives a value straight away; otherwise the result is
   * the live value at the shortest overlapping path, the batches of the
   * affected changes below it, and the query re-rooted there.
   *
   * With `checked` false the batches and the re-rooted query are those of
   * lines 169 and 171 as written (`CalculateBatches`, `RerootAsWritten`); with
   * `checked` true they are the corrected ones (`CalculateBatchesChecked`,
   * prefix removal). The two re-rootings agree, and both read the queried node,
   * whenever the shortest path does not occur again after itself in the query.
   */
  function Resolve(doc: Json, changes: seq<Change>, path: string, checked: bool): (r: Result<Resolution, Error>)
    ensures r.Failure? <==> !IsJsonPointer(path)
    ensures r.Failure? ==> r.error == NotAJsonPointer(path)
    ensures IsJsonPointer(path) && |changes| == 0 ==> r == Success(Value(GetPathValue(doc, path)))
    ensures IsJsonPointer(path) && FindPath(changes, path).Some? ==>
      r == Success(Value(changes[FindPath(changes, path).value].oldValue))
    ensures IsJsonPointer(path) && (forall i :: 0 <= i < |changes| ==> changes[i].path != path && !Overlaps(changes[i].path, path)) ==>
      r == Success(Value(GetPathValue(doc, path)))
    ensures IsJsonPointer(path) && FindPath(changes, path).None? && |Affected(changes, path)| > 0 ==>
      r.Success? && r.value.Revert?
    ensures r.Success? && r.value.Revert? ==>
      var affected := Affected(changes, path);
      var shortest := ShortestPath(affected, path);
      && AncestorOrSelf(shortest, path)
      && r.value.anchor == GetPathValue(doc, shortest)
      && 1 <= |r.value.batches| <= 1 + |changes|
      && (checked ==> CalculateBatchesChecked(affected, shortest) == Some(r.value.batches))
      && (!checked ==> CalculateBatches(affected, shortest) == Some(r.value.batches))
      && (!checked ==> RerootAsWritten(path, shortest) == Some(r.value.rerooted))
      && (checked || NotRepeated(path, shortest) ==>
            && r.value.rerooted == path[|shortest|..]
            && GetPathValue(r.value.anchor, r.value.rerooted) == GetPathValue(doc, path))
  {
    if !IsJsonPointer(path) then Failure(NotAJsonPointer(path))
    else if |changes| == 0 then Success(Value(GetPathValue(doc, path)))
    else
      match FindPath(changes, path)
      case Some(i) => Success(Value(changes[i].oldValue))
      case None =>
        var affected := Affected(changes, path);
        if |affected| == 0 then Success(Value(GetPathValue(doc, path)))
        else
          var shortest := ShortestPath(affected, path);
          ShortestIsCommonAncestor(affected, path);
          LookupBelowAncestor(doc, shortest, path);
          var anchor := GetPathValue(doc, shortest);
          if checked then
            var batches := CalculateBatchesChecked(affected, shortest);
            Success(Revert(anchor, batches.value, path[|shortest|..]))
          else
            AncestorsContained(affected, shortest);
            AncestorContained(shortest, path);
            assert NotRepeated(path, shortest) ==> RerootAsWritten(path, shortest) == Some(path[|shortest|..]) by {
              if NotRepeated(path, shortest) {
                RerootAsWrittenAgrees(path, shortest);
              }
            }
            var batches := CalculateBatches(affected, shortest);
            Success(Revert(anchor, batches.value, RerootAsWritten(path, shortest).value))
  }

  /** An ancestor-or-self occurs in the pointer it is above, at its start. */
  lemma AncestorContained(a: string, p: string)
    requires AncestorOrSelf(a, p)
    ensures Contains(p, a)
  {
    assert OccursAt(p, a, 0);
  }

  lemma AncestorsContained(affected: seq<Change>, a: string)
    requires forall i :: 0 <= i < |affected| ==> AncestorOrSelf(a, affected[i].path)
    ensures forall i :: 0 <= i < |affected| ==> Contains(affected[i].path, a)
  {
    forall i | 0 <= i < |affected| ensures Contains(affected[i].path, a) {
      AncestorContained(a, affected[i].path);
    }
  }

  /** `FindPath` is determined by its contract. */
  lemma FindPathIs(changes: seq<Change>, path: string, i: nat)
    requires i < |changes| && changes[i].path == path
    requires forall j :: 0 <= j < i ==> changes[j].path != path
    ensures FindPath(changes, path) == Some(i)
  {
  }

  /**
   * A change that is neither at the query, nor an ancestor, nor a descendant
   * of it does not alter the outcome: dropping it from the log leaves the
   * result as it was.
   */
  lemma IrrelevantChangeIgnored(doc: Json, changes: seq<Change>, path: string, i: nat, checked: bool)
    requires i < |changes|
    requires changes[i].path != path && !Overlaps(changes[i].path, path)
    ensures Resolve(doc, changes[..i] + changes[i + 1..], path, checked) == Resolve(doc, changes, path, checked)
  {
    AffectedWithout(changes, path, i);
    FindPathWithout(changes, path, i);
  }

  lemma AffectedWithout(changes: seq<Change>, path: string, i: nat)
    requires i < |changes|
    requires !Overlaps(changes[i].path, path)
    ensures Affected(changes[..i] + changes[i + 1..], path) == Affected(changes, path)
  {
    var a, c, b := changes[..i], changes[i], changes[i + 1..];
    assert changes == (a + [c]) + b;
    assert Affected([c], path) == [] by {
      assert [c][1..] == [];
    }
    calc {
      Affected(changes, path);
      { AffectedAppend(a + [c], b, path); }
      Affected(a + [c], path) + Affected(b, path);
      { AffectedAppend(a, [c], path); }
      Affected(a, path) + Affected(b, path);
      { AffectedAppend(a, b, path); }
      Affected(a + b, path);
    }
  }

  lemma FindPathWithout(changes: seq<Change>, path: string, i: nat)
    requires i < |changes|
    requires changes[i].path != path
    ensures var rest := changes[..i] + changes[i + 1..];
      && FindPath(rest, path).Some? == FindPath(changes, path).Some?
      && (FindPath(rest, path).Some? ==>
            rest[FindPath(rest, path).value] == changes[FindPath(changes, path).value])
  {
    var rest := changes[..i] + changes[i + 1..];
    assert forall k :: 0 <= k < i ==> rest[k] == changes[k];
    assert forall k :: i <= k < |rest| ==> rest[k] == changes[k + 1];
    match FindPath(changes, path)
    case None =>
      assert forall k :: 0 <= k < |rest| ==> rest[k].path != path;
    case Some(j) =>
      if j < i {
        FindPathIs(rest, path, j);
      } else {
        FindPathIs(rest, path, j - 1);
      }
  }

  /**
   * The re-rooting at line 171, as written: the query is cut at the shortest
   * path with `split` and the second piece kept (`None` where that piece would
   * be `undefined`).
   */
  function RerootAsWritten(path: string, shortest: string): (r: Option<string>)
    ensures r.None? <==> |shortest| > 0 && !Contains(path, shortest)
  {
    if |shortest| > 0 then
      var pieces := Split(path, shortest);
      if |pieces| < 2 then None else Some(pieces[1])
    else Some(path)
  }

  /** `base` does not occur again in `path` after its own occurrence at the start. */
  predicate NotRepeated(path: string, base: string)
  {
    base == "" || (|base| <= |path| && forall j :: 0 <= j <= |path| - |base| ==> !OccursAt(path[|base|..], base, j))
  }

  /** The cut by `split` is prefix removal when the shortest path does not occur again. */
  lemma RerootAsWrittenAgrees(path: string, shortest: string)
    requires AncestorOrSelf(shortest, path)
    requires NotRepeated(path, shortest)
    ensures RerootAsWritten(path, shortest) == Some(path[|shortest|..])
  {
    if shortest != "" {
      assert OccursAt(path, shortest, 0);
      IndexOfIs(path, shortest, 0);
      var tail := path[|shortest|..];
      assert Split(path, shortest) == [path[..0]] + Split(tail, shortest);
    }
  }

  /**
   * As written, a query below "/a" whose rest repeats "/a" loses that rest:
   * the query "/a/ab" re-rooted below "/a" becomes "" (the whole of "/a")
   * instead of "/ab", so the final lookup reads the wrong node.
   */
  lemma RepeatedShortestPathMisroots()
    ensures RerootAsWritten("/a/ab", "/a") == Some("")
    ensures "/a/ab"[|"/a"|..] == "/ab"
  {
    SplitAtA();
  }

  /**
   * The entry point as written misroots the query "/a/ab" when "/a" changed: the
   * query is re-rooted to "" (the whole of "/a") where the corrected re-rooting
   * gives "/ab".
   */
  lemma ResolveAsWrittenMisroots(doc: Json)
    ensures var r := Resolve(doc, [Change("/a", Null)], "/a/ab", false);
      r.Success? && r.value.Revert? && r.value.rerooted == ""
    ensures var r := Resolve(doc, [Change("/a", Null)], "/a/ab", true);
      r.Success? && r.value.Revert? && r.value.rerooted == "/ab"
  {
    var log := [Change("/a", Null)];
    assert IsJsonPointer("/a/ab");
    assert FindPath(log, "/a/ab") == None;
    assert Overlaps("/a", "/a/ab") by {
      assert "/a/ab"[..2] == "/a";
    }
    assert Affected(log, "/a/ab") == log by {
      assert log[1..] == [];
    }
    assert ShortestPath(log, "/a/ab") == "/a" by {
      assert log[1..] == [];
    }
    RepeatedShortestPathMisroots();
  }

  /**
   * The entry point as written keeps, in one batch, a change at "/a/b/c" older
   * than a change at "/a", when the query is "/a/b": the root marker of the
   * batch is never checked. The corrected step opens a second batch.
   */
  lemma ResolveAsWrittenJoinsRootBatch(doc: Json)
    ensures var r := Resolve(doc, [Change("/a", Null), Change("/a/b/c", Num(0))], "/a/b", false);
      r.Success? && r.value.Revert? && |r.value.batches| == 1
    ensures var r := Resolve(doc, [Change("/a", Null), Change("/a/b/c", Num(0))], "/a/b", true);
      r.Success? && r.value.Revert? && |r.value.batches| == 2
  {
    var log := [Change("/a", Null), Change("/a/b/c", Num(0))];
    RootBatchAffected();
    RootBatchFolds();
    assert FindPath(log, "/a/b") == None by {
      assert log[1..][1..] == [];
    }
  }

  /** Both changes of the log of `ResolveAsWrittenJoinsRootBatch` bear on "/a/b", "/a" the shortest. */
  lemma RootBatchAffected()
    ensures var log := [Change("/a", Null), Change("/a/b/c", Num(0))];
      IsJsonPointer("/a/b") && Affected(log, "/a/b") == log && ShortestPath(log, "/a/b") == "/a"
  {
    var log := [Change("/a", Null), Change("/a/b/c", Num(0))];
    assert IsJsonPointer("/a/b");
    assert Overlaps("/a", "/a/b") by {
      assert "/a/b"[..2] == "/a";
    }
    assert Overlaps("/a/b/c", "/a/b") by {
      assert "/a/b/c"[..4] == "/a/b";
    }
    assert log[1..][1..] == [];
    assert Affected(log[1..], "/a/b") == [log[1]];
  }

  /** The batches of that log below "/a": one as written, two corrected. */
  lemma RootBatchFolds()
    ensures var log := [Change("/a", Null), Change("/a/b/c", Num(0))];
      && CalculateBatches(log, "/a").Some? && |CalculateBatches(log, "/a").value| == 1
      && CalculateBatchesChecked(log, "/a").Some? && |CalculateBatchesChecked(log, "/a").value| == 2
  {
    var log := [Change("/a", Null), Change("/a/b/c", Num(0))];
    var below := ["", "b", "c"];
    var rest := log[1..];
    assert rest[1..] == [];
    assert Relative("/a", "/a", false) == Some([""]) by {
      SplitWholeA();
    }
    assert Relative("/a/b/c", "/a", false) == Some(below) by {
      SplitBelowA();
    }
    assert Relative("/a", "/a", true) == Some([""]) by {
      assert "/a"[2..] == "";
      SplitEmpty();
    }
    assert Relative("/a/b/c", "/a", true) == Some(below) by {
      assert "/a/b/c"[..2] == "/a";
      assert "/a/b/c"[2..] == "/b/c";
      SplitSlashBc();
    }
    var n1 := Step([Fresh], [""], Null, false);
    var n2 := Step(n1, below, Num(0), false);
    assert FoldChanges([Fresh], log, "/a", false) == Some(n2) by {
      assert FoldChanges(n1, rest, "/a", false) == FoldChanges(n2, [], "/a", false);
    }
    assert |n2| == 1 by {
      RootMarkerWalkedPast(n1, below);
    }
    var m1 := Step([Fresh], [""], Null, true);
    var m2 := Step(m1, below, Num(0), true);
    assert FoldChanges([Fresh], log, "/a", true) == Some(m2) by {
      assert FoldChanges(m1, rest, "/a", true) == FoldChanges(m2, [], "/a", true);
    }
    assert |m2| == 2 by {
      RootMarkerStops(m1, below);
    }
  }

  /** As written, a batch whose only marker is at its root takes a change below it. */
  lemma RootMarkerWalkedPast(n1: seq<Node>, below: seq<string>)
    requires n1 == AddChange([Fresh], [""], Null) && below == ["", "b", "c"]
    ensures |AddChange(n1, below, Num(0))| == 1
  {
    assert [""][1..] == [];
    assert !Clashes(Fresh, []);
    assert below[1..] == ["b", "c"];
    assert forall k | 1 <= k <= 2 :: ["b", "c"][..k] != [];
    assert !Clashes(n1[0], ["b", "c"]);
  }

  /** Corrected, the marker at the root opens a new batch. */
  lemma RootMarkerStops(m1: seq<Node>, below: seq<string>)
    requires m1 == AddChangeChecked([Fresh], [""], Null) && below == ["", "b", "c"]
    ensures |AddChangeChecked(m1, below, Num(0))| == 2
  {
    assert [""][1..] == [];
    assert m1 == [Node(Some(Null), map[])] by {
      assert m1 == AddChange([Fresh], [""], Null);
      assert !Clashes(Fresh, []);
    }
    assert |below| > 1;
  }

  /** Folds the batches onto the anchor, most recent batch first (line 170). */
  function FoldBatches(merge: (Json, Node) -> Json, live: Json, batches: seq<Node>): Json
    decreases |batches|
  {
    if batches == [] then live else FoldBatches(merge, merge(live, batches[0]), batches[1..])
  }

  /**
   * The whole entry point with the merge of one batch supplied by the caller.
   * Whatever the merge, the direct answers stand: the pointer check, the
   * exact match, and the current value when no change is at, above or below the
   * query (an empty log included). With a merge that reverts nothing the
   * result is the current value at the query, so the anchor and the re-rooted
   * query address the same node as the query itself. As written (`checked`
   * false) that holds when the shortest path does not occur again in the query.
   */
  function PreviousValue(doc: Json, changes: seq<Change>, path: string, merge: (Json, Node) -> Json, checked: bool): (r: Result<Json, Error>)
    ensures r.Failure? <==> !IsJsonPointer(path)
    ensures IsJsonPointer(path) && FindPath(changes, path).Some? ==>
      r == Success(changes[FindPath(changes, path).value].oldValue)
    ensures IsJsonPointer(path) && FindPath(changes, path).None? && Affected(changes, path) == [] ==>
      r == Success(GetPathValue(doc, path))
    ensures && IsJsonPointer(path)
            && FindPath(changes, path).None?
            && (forall x, b :: merge(x, b) == x)
            && (checked || NotRepeated(path, ShortestPath(Affected(changes, path), path)))
            ==> r == Success(GetPathValue(doc, path))
  {
    match Resolve(doc, changes, path, checked)
    case Failure(e) => Failure(e)
    case Success(Value(v)) => Success(v)
    case Success(Revert(anchor, batches, rerooted)) =>
      FoldIdentity(merge, anchor, batches);
      Success(GetPathValue(FoldBatches(merge, anchor, batches), rerooted))
  }

  /**
   * The current value is the answer whenever no change is at, above or below the
   * query, whatever the merge; an empty log is the plainest case.
   */
  lemma PreviousValueUntouched(doc: Json, changes: seq<Change>, path: string, merge: (Json, Node) -> Json, checked: bool)
    requires IsJsonPointer(path)
    requires forall i :: 0 <= i < |changes| ==> changes[i].path != path && !Overlaps(changes[i].path, path)
    ensures PreviousValue(doc, changes, path, merge, checked) == Success(GetPathValue(doc, path))
  {
    assert FindPath(changes, path).None?;
    var affected := Affected(changes, path);
    assert forall k :: 0 <= k < |affected| ==> affected[k] in changes;
  }

  lemma {:induction false} FoldIdentity(merge: (Json, Node) -> Json, live: Json, batches: seq<Node>)
    ensures (forall x, b :: merge(x, b) == x) ==> FoldBatches(merge, live, batches) == live
    decreases |batches|
  {
    if batches != [] {
      FoldIdentity(merge, merge(live, batches[0]), batches[1..]);
    }
  }
}
