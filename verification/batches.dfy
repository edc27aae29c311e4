/**
 * `calculateBatches(affected_changes, shortest_path)`: groups a most-recent-first
 * list of changes into batch trees. A batch node may carry a marker (the
 * recorded `__old_value`, present even when that value is `Undefined`); its
 * children are keyed by pointer tokens.
 */
module Batches {
  import opened Wrappers
  import opened Strings
  import opened Document
  import opened UndoChange

  /** A batch node: an optional marker and the child nodes by token. */
  datatype Node = Node(marker: Option<Json>, children: map<string, Node>)

  /** The empty batch `{}`. */
  const Fresh: Node := Node(None, map[])

  /** The marker at the node reached by `q` from `n`, if that node exists and carries one. */
  function MarkerAt(n: Node, q: seq<string>): Option<Json>
    decreases |q|
  {
    if q == [] then n.marker
    else if q[0] in n.children then MarkerAt(n.children[q[0]], q[1..])
    else None
  }

  /** True when following `q` from `n` reaches a node. */
  predicate HasNode(n: Node, q: seq<string>)
    decreases |q|
  {
    q == [] || (q[0] in n.children && HasNode(n.children[q[0]], q[1..]))
  }

  /**
   * Some existing node on the walk of `rel` carries a marker. The walk covers
   * the node of every non-empty prefix of `rel`, the change's own node included,
   * but never the batch root.
   */
  predicate Clashes(n: Node, rel: seq<string>)
  {
    exists k :: 1 <= k <= |rel| && MarkerAt(n, rel[..k]).Some?
  }

  /** `after` is `before` with one marker more, `v` at `rel`, and no other marker changed. */
  ghost predicate AddsOneMarker(before: Node, after: Node, rel: seq<string>, v: Json)
  {
    forall q :: MarkerAt(after, q) == if q == rel then Some(v) else MarkerAt(before, q)
  }

  /** `after` has the nodes of `before` and those along `rel`, and no others. */
  ghost predicate GrowsAlong(before: Node, after: Node, rel: seq<string>)
  {
    forall q :: HasNode(after, q) <==> HasNode(before, q) || IsPrefix(q, rel)
  }

  /** A fresh batch holding only the path `rel` and a marker at its end. */
  function Chain(rel: seq<string>, v: Json): Node
    decreases |rel|
  {
    if rel == [] then Node(Some(v), map[])
    else Node(None, map[rel[0] := Chain(rel[1..], v)])
  }

  /** A fresh chain carries exactly one marker, at the end of its path. */
  lemma {:induction false} ChainMarkers(rel: seq<string>, v: Json, q: seq<string>)
    ensures MarkerAt(Chain(rel, v), q) == if q == rel then Some(v) else None
    ensures HasNode(Chain(rel, v), q) <==> IsPrefix(q, rel)
    decreases |rel|
  {
    if rel != [] && q != [] {
      ChainMarkers(rel[1..], v, q[1..]);
      if q[0] == rel[0] {
        assert q == rel <==> q[1..] == rel[1..];
        assert IsPrefix(q, rel) <==> IsPrefix(q[1..], rel[1..]);
      }
    }
  }

  /**
   * The walk over one batch: at each token the child is created when missing,
   * and the walk stops, incompatible, at the first child carrying a marker. When
   * it gets to the end it sets the marker there. Returns the batch as the walk
   * leaves it and whether the change was compatible.
   */
  function WalkAndMark(n: Node, rel: seq<string>, v: Json): (r: (Node, bool))
    decreases |rel|
  {
    if rel == [] then (n.(marker := Some(v)), true)
    else
      var child := if rel[0] in n.children then n.children[rel[0]] else Fresh;
      var created := n.(children := n.children[rel[0] := child]);
      if child.marker.Some? then (created, false)
      else
        var (below, ok) := WalkAndMark(child, rel[1..], v);
        (created.(children := created.children[rel[0] := below]), ok)
  }

  lemma ClashesStep(n: Node, rel: seq<string>)
    requires rel != []
    ensures var child := if rel[0] in n.children then n.children[rel[0]] else Fresh;
      Clashes(n, rel) <==> child.marker.Some? || Clashes(child, rel[1..])
  {
    var child := if rel[0] in n.children then n.children[rel[0]] else Fresh;
    forall k | 1 <= k <= |rel|
      ensures MarkerAt(n, rel[..k]) == MarkerAt(child, rel[1..][..k - 1])
    {
      assert rel[..k][0] == rel[0];
      assert rel[..k][1..] == rel[1..][..k - 1];
      if rel[0] !in n.children {
        if k - 1 > 0 {
          assert rel[1..][..k - 1] != [];
        }
      }
    }
    if Clashes(n, rel) {
      var k :| 1 <= k <= |rel| && MarkerAt(n, rel[..k]).Some?;
      if k > 1 {
        assert MarkerAt(child, rel[1..][..k - 1]).Some?;
      } else {
        assert rel[1..][..0] == [];
      }
    }
    if Clashes(child, rel[1..]) {
      var k :| 1 <= k <= |rel[1..]| && MarkerAt(child, rel[1..][..k]).Some?;
      assert MarkerAt(n, rel[..k + 1]).Some?;
    }
    if child.marker.Some? {
      assert rel[1..][..0] == [];
      assert MarkerAt(n, rel[..1]).Some?;
    }
  }

  /**
   * What the walk does: it is compatible exactly when no node on the path
   * (root excluded) carries a marker; an incompatible walk leaves the batch as
   * it was, since a clash is only ever met on nodes that already existed; a
   * compatible walk adds the one marker at the end of the path and the nodes
   * along it, and nothing else.
   */
  lemma {:induction false} WalkAndMarkSpec(n: Node, rel: seq<string>, v: Json)
    ensures WalkAndMark(n, rel, v).1 <==> !Clashes(n, rel)
    ensures !WalkAndMark(n, rel, v).1 ==> WalkAndMark(n, rel, v).0 == n
    ensures WalkAndMark(n, rel, v).1 ==> AddsOneMarker(n, WalkAndMark(n, rel, v).0, rel, v)
    ensures WalkAndMark(n, rel, v).1 ==> GrowsAlong(n, WalkAndMark(n, rel, v).0, rel)
    decreases |rel|
  {
    var r := WalkAndMark(n, rel, v);
    if rel == [] {
      assert !Clashes(n, rel);
      forall q ensures MarkerAt(r.0, q) == if q == rel then Some(v) else MarkerAt(n, q) {
      }
      forall q ensures HasNode(r.0, q) <==> HasNode(n, q) || IsPrefix(q, rel) {
      }
    } else {
      var s := rel[0];
      var child := if s in n.children then n.children[s] else Fresh;
      ClashesStep(n, rel);
      if child.marker.Some? {
        assert s in n.children;
        assert n.children[s := child] == n.children;
      } else {
        WalkAndMarkSpec(child, rel[1..], v);
        if !r.1 {
          assert n.children[s := child] == n.children;
        } else {
          WalkStepMarkers(n, rel, v);
          WalkStepNodes(n, rel, v);
        }
      }
    }
  }

  /** The marker half of the inductive step of `WalkAndMarkSpec`. */
  lemma WalkStepMarkers(n: Node, rel: seq<string>, v: Json)
    requires rel != []
    requires var child := if rel[0] in n.children then n.children[rel[0]] else Fresh;
      && child.marker.None?
      && WalkAndMark(child, rel[1..], v).1
      && AddsOneMarker(child, WalkAndMark(child, rel[1..], v).0, rel[1..], v)
    ensures AddsOneMarker(n, WalkAndMark(n, rel, v).0, rel, v)
  {
    var s := rel[0];
    var child := if s in n.children then n.children[s] else Fresh;
    var below := WalkAndMark(child, rel[1..], v).0;
    var after := WalkAndMark(n, rel, v).0;
    assert after.children == n.children[s := below];
    forall q ensures MarkerAt(after, q) == if q == rel then Some(v) else MarkerAt(n, q) {
      if q != [] && q[0] == s {
        assert q == rel <==> q[1..] == rel[1..];
        assert MarkerAt(after, q) == MarkerAt(below, q[1..]);
        if s !in n.children {
          assert MarkerAt(child, q[1..]) == None;
        }
      }
    }
  }

  /** The node half of the inductive step of `WalkAndMarkSpec`. */
  lemma WalkStepNodes(n: Node, rel: seq<string>, v: Json)
    requires rel != []
    requires var child := if rel[0] in n.children then n.children[rel[0]] else Fresh;
      && child.marker.None?
      && WalkAndMark(child, rel[1..], v).1
      && GrowsAlong(child, WalkAndMark(child, rel[1..], v).0, rel[1..])
    ensures GrowsAlong(n, WalkAndMark(n, rel, v).0, rel)
  {
    var s := rel[0];
    var child := if s in n.children then n.children[s] else Fresh;
    var below := WalkAndMark(child, rel[1..], v).0;
    var after := WalkAndMark(n, rel, v).0;
    assert after.children == n.children[s := below];
    forall q ensures HasNode(after, q) <==> HasNode(n, q) || IsPrefix(q, rel) {
      if q != [] && q[0] == s {
        assert IsPrefix(q, rel) <==> IsPrefix(q[1..], rel[1..]);
        assert HasNode(after, q) == HasNode(below, q[1..]);
        if s !in n.children {
          assert HasNode(child, q[1..]) <==> q[1..] == [];
          assert q[1..] == [] ==> IsPrefix(q[1..], rel[1..]);
        }
      }
    }
  }

  /**
   * One change folded into the batch list (the body of the loop). `segs` is the
   * change's relative path split at '/'; its first piece is the empty text
   * before the leading '/', and the walk skips it.
   */
  function AddChange(batches: seq<Node>, segs: seq<string>, v: Json): (r: seq<Node>)
    requires |batches| >= 1 && |segs| >= 1
    ensures |r| == |batches| || |r| == |batches| + 1
    ensures r[..|batches| - 1] == batches[..|batches| - 1]
    ensures |r| == |batches| + 1 <==> Clashes(batches[|batches| - 1], segs[1..])
    ensures |r| == |batches| ==> AddsOneMarker(batches[|batches| - 1], r[|r| - 1], segs[1..], v)
    ensures |r| == |batches| ==> GrowsAlong(batches[|batches| - 1], r[|r| - 1], segs[1..])
    ensures |r| == |batches| + 1 ==>
      r[|batches| - 1] == batches[|batches| - 1] && r[|batches|] == Chain(segs[1..], v)
  {
    var last := batches[|batches| - 1];
    var init := batches[..|batches| - 1];
    if |segs| == 1 && segs[0] == "" then
      assert segs[1..] == [];
      WalkAndMarkSpec(last, segs[1..], v);
      init + [last.(marker := Some(v))]
    else
      WalkAndMarkSpec(last, segs[1..], v);
      var (walked, compatible) := WalkAndMark(last, segs[1..], v);
      if compatible then init + [walked]
      else init + [walked] + [Chain(segs[1..], v)]
  }

  /**
   * Lines 59-60: the change's path below `shortest`, split at '/'. The path is
   * cut at `shortest` with `split` and the second piece kept; when `shortest`
   * does not occur in the path that piece is `undefined` and `.split` throws,
   * which is `None` here.
   */
  function SplitRelative(path: string, shortest: string): (r: Option<seq<string>>)
    ensures r.Some? ==> |r.value| >= 1
    ensures r.None? <==> |shortest| > 0 && !Contains(path, shortest)
  {
    if |shortest| > 0 then
      var pieces := Split(path, shortest);
      if |pieces| < 2 then None else Some(Split(pieces[1], "/"))
    else Some(Split(path, "/"))
  }

  /**
   * The path below `base`, split at '/', found by removing `base` as a prefix
   * (`None` when it is not one). This is what the cut at lines 59-60 is meant to
   * compute; see `SplitRelativeAgrees` for when the two coincide.
   */
  function SplitBelow(path: string, base: string): (r: Option<seq<string>>)
    ensures r.Some? <==> |base| <= |path| && path[..|base|] == base
    ensures r.Some? ==> |r.value| >= 1
    ensures AncestorOrSelf(base, path) ==> r.Some? && r.value[0] == "" && Tokens(path) == Tokens(base) + r.value[1..]
  {
    SplitBelowTokens(path, base);
    if |base| <= |path| && path[..|base|] == base then
      Some(Split(path[|base|..], "/"))
    else None
  }

  lemma SplitBelowTokens(path: string, base: string)
    ensures AncestorOrSelf(base, path) ==>
      var segs := Split(path[|base|..], "/");
      segs[0] == "" && Tokens(path) == Tokens(base) + segs[1..]
  {
    if !AncestorOrSelf(base, path) {
    } else if base == path {
      assert path[|base|..] == "";
      assert Split("", "/") == [""];
    } else {
      TokensOfDescendant(base, path);
      var t := path[|base| + 1..];
      assert path[|base|..] == "" + "/" + t;
      SplitConcatSlash("", t);
      assert Split("", "/") == [""];
    }
  }

  /**
   * The cut by `split` equals prefix removal whenever `base` does not occur
   * again in what follows it.
   */
  lemma SplitRelativeAgrees(path: string, base: string)
    requires AncestorOrSelf(base, path)
    requires base == "" || forall j :: !OccursAt(path[|base|..], base, j)
    ensures SplitRelative(path, base) == SplitBelow(path, base)
  {
    if base != "" {
      assert OccursAt(path, base, 0);
      IndexOfIs(path, base, 0);
      assert path[..0] == "";
      var tail := path[|base|..];
      assert Split(path, base) == [""] + Split(tail, base);
    }
  }

  /**
   * As written, a shortest path that occurs again later in a change's path cuts
   * it short: below "/a", the change at "/a/ab" is read as the root itself
   * (`"/a/ab".split("/a")` is `["", "", "b"]`) instead of as the token "ab".
   */
  lemma RepeatedBaseCutsShort()
    ensures SplitRelative("/a/ab", "/a") == Some([""])
    ensures SplitBelow("/a/ab", "/a") == Some(["", "ab"])
  {
    SplitAtA();
    SplitEmpty();
    SplitSlashAb();
    assert "/a/ab"[..2] == "/a";
    assert "/a/ab"[2..] == "/ab";
  }

  lemma SplitEmpty()
    ensures Split("", "/") == [""]
  {
  }

  lemma SplitSlashAb()
    ensures Split("/ab", "/") == ["", "ab"]
  {
    assert "/ab" == "" + "/" + "ab";
    SplitConcatSlash("", "ab");
    SlashFree("ab");
    SplitEmpty();
  }

  lemma SplitAtA()
    ensures Split("/a/ab", "/a") == ["", "", "b"]
  {
    var s := "/a/ab";
    assert OccursAt(s, "/a", 0);
    IndexOfIs(s, "/a", 0);
    assert s[2..] == "/ab";
    assert OccursAt("/ab", "/a", 0);
    IndexOfIs("/ab", "/a", 0);
    assert "/ab"[2..] == "b";
    assert Split("b", "/a") == ["b"];
    assert Split("/ab", "/a") == [""] + ["b"];
  }

  lemma SplitWholeA()
    ensures SplitRelative("/a", "/a") == Some([""])
  {
    var s := "/a";
    assert OccursAt(s, "/a", 0);
    IndexOfIs(s, "/a", 0);
    assert s[2..] == "";
    assert Split("", "/a") == [""];
    assert Split(s, "/a") == ["", ""];
    SplitEmpty();
  }

  lemma SplitSlashBc()
    ensures Split("/b/c", "/") == ["", "b", "c"]
  {
    assert "/b/c" == "" + "/" + "b/c";
    SplitConcatSlash("", "b/c");
    SplitEmpty();
    SplitBc();
  }

  lemma SplitBc()
    ensures Split("b/c", "/") == ["b", "c"]
  {
    assert "b/c" == "b" + "/" + "c";
    SplitConcatFree("b", "c");
    SlashFree("c");
  }

  lemma SplitBelowA()
    ensures SplitRelative("/a/b/c", "/a") == Some(["", "b", "c"])
  {
    var s := "/a/b/c";
    assert OccursAt(s, "/a", 0);
    IndexOfIs(s, "/a", 0);
    assert s[2..] == "/b/c";
    assert !Contains("/b/c", "/a") by {
      forall j | 0 <= j <= 4 ensures !OccursAt("/b/c", "/a", j) {
        if j + 2 <= 4 {
          assert "/b/c"[j..j + 2][1] == "/b/c"[j + 1] != 'a';
        }
      }
    }
    SplitPieces("/b/c", "/a");
    assert Split(s, "/a") == ["", "/b/c"];
    SplitSlashBc();
  }

  /** No node strictly above the end of `rel`, the batch root included, carries a marker. */
  ghost predicate NoMarkerAbove(n: Node, rel: seq<string>)
  {
    forall k :: 0 <= k < |rel| ==> MarkerAt(n, rel[..k]).None?
  }

  /**
   * The batch step with the root's marker checked too: a non-root change never
   * joins a batch whose root already carries a marker. Only the check differs
   * from `AddChange`.
   */
  function AddChangeChecked(batches: seq<Node>, segs: seq<string>, v: Json): (r: seq<Node>)
    requires |batches| >= 1 && |segs| >= 1
    ensures |r| == |batches| || |r| == |batches| + 1
    ensures r[..|batches| - 1] == batches[..|batches| - 1]
    ensures |r| == |batches| + 1 <==>
      Clashes(batches[|batches| - 1], segs[1..]) || (|segs| > 1 && batches[|batches| - 1].marker.Some?)
    ensures |r| == |batches| ==> NoMarkerAbove(batches[|batches| - 1], segs[1..])
    ensures |r| == |batches| ==> AddsOneMarker(batches[|batches| - 1], r[|r| - 1], segs[1..], v)
    ensures |r| == |batches| + 1 ==>
      r[|batches| - 1] == batches[|batches| - 1] && r[|batches|] == Chain(segs[1..], v)
  {
    var last := batches[|batches| - 1];
    if |segs| > 1 && last.marker.Some? then
      assert batches == batches[..|batches| - 1] + [last];
      batches + [Chain(segs[1..], v)]
    else
      var r := AddChange(batches, segs, v);
      assert |r| == |batches| ==> NoMarkerAbove(last, segs[1..]) by {
        if |r| == |batches| {
          forall k | 0 <= k < |segs[1..]| ensures MarkerAt(last, segs[1..][..k]).None? {
            if k == 0 {
              assert segs[1..][..0] == [];
            } else {
              assert !Clashes(last, segs[1..]);
            }
          }
        }
      }
      r
  }

  /**
   * As written, a root marker does not stop a deeper change from joining its
   * batch: the batch then holds a marker below a marker, which the comment at
   * lines 17-21 rules out. The checked step opens a second batch instead.
   */
  lemma RootMarkerDoesNotBlock()
    ensures var once := AddChange([Fresh], [""], Null);
      var twice := AddChange(once, ["", "b"], Num(0));
      && |twice| == 1
      && MarkerAt(twice[0], []) == Some(Null)
      && MarkerAt(twice[0], ["b"]) == Some(Num(0))
    ensures |AddChangeChecked(AddChange([Fresh], [""], Null), ["", "b"], Num(0))| == 2
  {
    var once := AddChange([Fresh], [""], Null);
    assert once == [Node(Some(Null), map[])];
    assert ["", "b"][1..] == ["b"];
    assert !Clashes(once[0], ["b"]) by {
      forall k | 1 <= k <= 1 ensures MarkerAt(once[0], ["b"][..k]).None? {
        assert ["b"][..k] == ["b"];
      }
    }
  }

  /**
   * `after` keeps every batch of `before` except possibly the last, which the
   * next change may still extend: all but the last batch are settled.
   */
  predicate Settled(before: seq<Node>, after: seq<Node>)
  {
    1 <= |before| <= |after| && after[..|before| - 1] == before[..|before| - 1]
  }

  lemma SettledTransitive(a: seq<Node>, b: seq<Node>, c: seq<Node>)
    requires Settled(a, b) && Settled(b, c)
    ensures Settled(a, c)
  {
    assert c[..|a| - 1] == c[..|b| - 1][..|a| - 1];
    assert b[..|a| - 1] == b[..|b| - 1][..|a| - 1];
  }

  /** One change folded in, by the step as written or by the checked one. */
  function Step(batches: seq<Node>, segs: seq<string>, v: Json, checked: bool): (r: seq<Node>)
    requires |batches| >= 1 && |segs| >= 1
    ensures |r| <= |batches| + 1
    ensures Settled(batches, r)
  {
    if checked then AddChangeChecked(batches, segs, v) else AddChange(batches, segs, v)
  }

  /**
   * The loop of `calculateBatches` over the remaining changes. `checked`
   * selects the corrected relative path (`SplitBelow`) and batch step
   * (`AddChangeChecked`) in place of the lines as written.
   */
  function FoldChanges(batches: seq<Node>, changes: seq<Change>, shortest: string, checked: bool): (r: Option<seq<Node>>)
    requires |batches| >= 1
    ensures r.Some? <==> forall i :: 0 <= i < |changes| ==> Relative(changes[i].path, shortest, checked).Some?
    ensures r.Some? ==> |r.value| <= |batches| + |changes|
    ensures r.Some? ==> Settled(batches, r.value)
    decreases |changes|
  {
    if changes == [] then
      assert Settled(batches, batches);
      Some(batches)
    else
      var head := Relative(changes[0].path, shortest, checked);
      if head.None? then None
      else
        var next := Step(batches, head.value, changes[0].oldValue, checked);
        var r := FoldChanges(next, changes[1..], shortest, checked);
        assert (forall i :: 0 <= i < |changes| ==> Relative(changes[i].path, shortest, checked).Some?)
           <==> (forall i :: 0 <= i < |changes[1..]| ==> Relative(changes[1..][i].path, shortest, checked).Some?) by {
          assert forall i :: 1 <= i < |changes| ==> changes[1..][i - 1] == changes[i];
        }
        assert r.Some? ==> Settled(batches, r.value) by {
          if r.Some? {
            SettledTransitive(batches, next, r.value);
          }
        }
        r
  }

  /** The relative path a change is walked by, as written or corrected. */
  function Relative(path: string, shortest: string, checked: bool): (r: Option<seq<string>>)
    ensures r.Some? ==> |r.value| >= 1
  {
    if checked then SplitBelow(path, shortest) else SplitRelative(path, shortest)
  }

  /**
   * `calculateBatches` as written: starts from one empty batch and folds every
   * change in. It fails (a TypeError in the source) only when `shortest` is
   * missing from some change's path.
   */
  function CalculateBatches(changes: seq<Change>, shortest: string): (r: Option<seq<Node>>)
    ensures r.Some? <==> |shortest| == 0 || forall i :: 0 <= i < |changes| ==> Contains(changes[i].path, shortest)
    ensures r.Some? ==> 1 <= |r.value| <= 1 + |changes|
  {
    FoldChanges([Fresh], changes, shortest, false)
  }

  /** `calculateBatches` with the corrected relative path and batch step. */
  function CalculateBatchesChecked(changes: seq<Change>, shortest: string): (r: Option<seq<Node>>)
    ensures (forall i :: 0 <= i < |changes| ==> AncestorOrSelf(shortest, changes[i].path)) ==> r.Some?
    ensures r.Some? ==> 1 <= |r.value| <= 1 + |changes|
  {
    FoldChanges([Fresh], changes, shortest, true)
  }
}
