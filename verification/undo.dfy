/**
 * `undo(object, change)`: reverts one recorded change on a JSON-like value.
 * The value is rebuilt along the change's path only; every member off the path
 * is carried over as it is.
 */
module UndoChange {
  import opened Wrappers
  import opened Strings
  import opened Document

  /** A recorded change: the pointer it touched and the value held there before it. */
  datatype Change = Change(path: string, oldValue: Json)

  /** `path.split('/')[1]`: the first token, or nothing when the path holds no '/'. */
  function FirstToken(path: string): Option<string>
  {
    var parts := Split(path, "/");
    if |parts| > 1 then Some(parts[1]) else None
  }

  /**
   * The path handed to the recursive call: the pieces after the first token,
   * joined with '/', and given a leading '/' unless that join is empty.
   */
  function RerootedPath(path: string): string
  {
    var parts := Split(path, "/");
    var rest := if |parts| >= 2 then parts[2..] else [];
    var joined := Join(rest, "/");
    if |joined| > 0 then "/" + joined else joined
  }

  /** Each recursive step works on a strictly shorter path, so `Undo` terminates. */
  lemma RerootShorter(path: string)
    requires path != ""
    ensures |RerootedPath(path)| < |path|
  {
    var parts := Split(path, "/");
    JoinSplit(path, "/");
    if |parts| >= 3 {
      JoinPrepend(parts[0], parts[1..], "/");
      JoinPrepend(parts[1], parts[2..], "/");
      assert parts[1..][1..] == parts[2..];
    }
  }

  /** Reverts `change` on `live`. */
  function Undo(live: Json, change: Change): (r: Json)
    ensures change.path == "" ==> r == change.oldValue
    ensures change.path != "" && live.Obj? ==>
      && r.Obj?
      && r.fields.Keys == live.fields.Keys
      && forall k :: k in live.fields && Some(k) != FirstToken(change.path) ==> r.fields[k] == live.fields[k]
    ensures change.path != "" && live.Arr? ==>
      && r.Arr?
      && |r.items| == |live.items|
      && forall i :: 0 <= i < |live.items| && Some(IndexString(i)) != FirstToken(change.path) ==> r.items[i] == live.items[i]
    ensures change.path != "" && !live.Obj? && !live.Arr? ==> r == live
    decreases |change.path|
  {
    if change.path == "" then change.oldValue
    else
      RerootShorter(change.path);
      var first := FirstToken(change.path);
      var deeper := Change(RerootedPath(change.path), change.oldValue);
      match live
      case Obj(m) =>
        Obj(map k | k in m :: if Some(k) == first then Undo(m[k], deeper) else m[k])
      case Arr(a) =>
        Arr(seq(|a|, i requires 0 <= i < |a| => if Some(IndexString(i)) == first then Undo(a[i], deeper) else a[i]))
      case _ => live
  }

  /**
   * Tokens `Undo` reads as written: none holds a '/', and the last is not empty
   * unless it is the only one (a trailing empty token after others is dropped by
   * the re-rooting, see `UndoTrailingSlash`; the lone empty token is the pointer
   * "/", the member with the empty key).
   */
  predicate PlainTokens(tokens: seq<string>)
  {
    SlashFreeTokens(tokens) && (|tokens| <= 1 || tokens[|tokens| - 1] != "")
  }

  /** The tokens after the first of a plain list are plain. */
  lemma PlainTail(p: seq<string>)
    requires PlainTokens(p) && p != []
    ensures PlainTokens(p[1..])
    ensures p == [p[0]] + p[1..]
  {
    assert forall k :: 0 <= k < |p[1..]| ==> p[1..][k] == p[k + 1];
  }

  /** `Resolves(doc, p)`: every token of `p` names an existing member on the way down. */
  predicate Resolves(doc: Json, tokens: seq<string>)
    decreases |tokens|
  {
    tokens == [] || (Has(doc, tokens[0]) && Resolves(Child(doc, tokens[0]), tokens[1..]))
  }

  /** `IsPrefix(xs, ys)`: `xs` is a (not necessarily strict) prefix of `ys`. */
  predicate IsPrefix(xs: seq<string>, ys: seq<string>)
  {
    |xs| <= |ys| && ys[..|xs|] == xs
  }

  /** On a pointer, `Undo` descends by the first token and recurses on the pointer of the rest. */
  lemma RerootedPointer(s: string, rest: seq<string>)
    requires PlainTokens([s] + rest)
    ensures Pointer([s] + rest) != ""
    ensures FirstToken(Pointer([s] + rest)) == Some(s)
    ensures RerootedPath(Pointer([s] + rest)) == Pointer(rest)
  {
    var tokens := [s] + rest;
    SplitJoinSlash([""] + tokens);
    JoinPrepend("", tokens, "/");
    var parts := Split(Pointer(tokens), "/");
    assert parts == [""] + tokens;
    assert parts[2..] == rest;
    if rest != [] {
      JoinLength(rest, "/");
      JoinPrepend("", rest, "/");
      assert rest[|rest| - 1] == tokens[|tokens| - 1];
    }
  }

  /** The pointer "/" names the member with the empty key: a revert there restores that member alone. */
  lemma UndoEmptyKey(m: map<string, Json>, v: Json)
    requires "" in m
    ensures Undo(Obj(m), Change("/", v)) == Obj(m["" := v])
  {
    assert Pointer([""]) == "/" by {
      assert [""] + [""] == ["", ""];
      assert ["", ""][1..] == [""];
      assert Join([""], "/") == "";
      assert "" + "/" + "" == "/";
    }
    assert Pointer([]) == "" by {
      assert [""] + [] == [""];
    }
    RerootedPointer("", []);
    var r := Undo(Obj(m), Change("/", v));
    assert r.fields[""] == v;
    assert r.fields == m["" := v];
  }

  /**
   * One level of `Undo` on a pointer: the member named by the first token is the
   * rest of the change reverted on the old member, when that member exists; every
   * other member is what it was.
   */
  lemma UndoChild(o: Json, s: string, rest: seq<string>, v: Json, t: string)
    requires PlainTokens([s] + rest)
    ensures Child(Undo(o, Change(Pointer([s] + rest), v)), t)
         == if t == s && Has(o, s) then Undo(Child(o, s), Change(Pointer(rest), v)) else Child(o, t)
  {
    RerootedPointer(s, rest);
    match o
    case Obj(m) =>
    case Arr(a) =>
      if ParseIndex(t).Some? {
        IndexStringParse(t, ParseIndex(t).value);
      }
    case _ =>
  }

  /**
   * If `p` resolves inside `o`, reading `p` (or anything below it) after
   * reverting the change at `p` reads the recorded old value.
   */
  lemma {:induction false} UndoWritesOldValue(o: Json, p: seq<string>, v: Json, t: seq<string>)
    requires PlainTokens(p) && Resolves(o, p)
    ensures Lookup(Undo(o, Change(Pointer(p), v)), p + t) == Lookup(v, t)
    decreases |p|
  {
    if p == [] {
      assert Pointer(p) == "";
      assert p + t == t;
    } else {
      var s, rest := p[0], p[1..];
      PlainTail(p);
      assert (p + t)[0] == s && (p + t)[1..] == rest + t;
      UndoChild(o, s, rest, v, s);
      UndoWritesOldValue(Child(o, s), rest, v, t);
    }
  }

  /** Reverting the change at `p` leaves every path unrelated to `p` reading what it read. */
  lemma {:induction false} UndoKeepsUnrelated(o: Json, p: seq<string>, v: Json, q: seq<string>)
    requires PlainTokens(p)
    requires !IsPrefix(p, q) && !IsPrefix(q, p)
    ensures Lookup(Undo(o, Change(Pointer(p), v)), q) == Lookup(o, q)
    decreases |q|
  {
    var s, rest := p[0], p[1..];
    var u := Undo(o, Change(Pointer(p), v));
    PlainTail(p);
    assert Lookup(u, q) == Lookup(Child(u, q[0]), q[1..]);
    UndoChild(o, s, rest, v, q[0]);
    if q[0] == s && Has(o, s) {
      assert !IsPrefix(rest, q[1..]) && !IsPrefix(q[1..], rest) by {
        assert p[..|rest| + 1] == [s] + rest[..|rest|];
      }
      UndoKeepsUnrelated(Child(o, s), rest, v, q[1..]);
    }
  }

  /**
   * A change whose path does not resolve (a missing key, an out-of-range index,
   * or a scalar on the way) creates nothing: the value comes back unchanged.
   */
  lemma {:induction false} UndoUnresolvedIsIdentity(o: Json, p: seq<string>, v: Json)
    requires PlainTokens(p) && !Resolves(o, p)
    ensures Undo(o, Change(Pointer(p), v)) == o
    decreases |p|
  {
    var s, rest := p[0], p[1..];
    PlainTail(p);
    var u := Undo(o, Change(Pointer(p), v));
    var deeper := Change(Pointer(rest), v);
    RerootedPointer(s, rest);
    match o
    case Obj(m) =>
      if s in m {
        assert Undo(m[s], deeper) == m[s] by {
          UndoUnresolvedIsIdentity(m[s], rest, v);
        }
      }
      assert u.fields == m;
    case Arr(a) =>
      forall i | 0 <= i < |a| ensures u.items[i] == a[i] {
        if IndexString(i) == s {
          ParseIndexString(i);
          assert Undo(a[i], deeper) == a[i] by {
            UndoUnresolvedIsIdentity(a[i], rest, v);
          }
        }
      }
      assert u.items == a;
    case _ =>
  }

  /** Two changes that descend by the same token into equal deeper reverts revert alike. */
  lemma UndoSameStep(o: Json, c1: Change, c2: Change)
    requires c1.path != "" && c2.path != ""
    requires FirstToken(c1.path) == FirstToken(c2.path)
    requires forall x :: Undo(x, Change(RerootedPath(c1.path), c1.oldValue))
                      == Undo(x, Change(RerootedPath(c2.path), c2.oldValue))
    ensures Undo(o, c1) == Undo(o, c2)
  {
    var u1, u2 := Undo(o, c1), Undo(o, c2);
    match o
    case Obj(m) =>
      forall k | k in m ensures u1.fields[k] == u2.fields[k] {
        if Some(k) == FirstToken(c1.path) {
          assert u1.fields[k] == Undo(m[k], Change(RerootedPath(c1.path), c1.oldValue));
          assert u2.fields[k] == Undo(m[k], Change(RerootedPath(c2.path), c2.oldValue));
        }
      }
      assert u1.fields == u2.fields;
    case Arr(a) =>
      forall i | 0 <= i < |a| ensures u1.items[i] == u2.items[i] {
        if Some(IndexString(i)) == FirstToken(c1.path) {
          assert u1.items[i] == Undo(a[i], Change(RerootedPath(c1.path), c1.oldValue));
          assert u2.items[i] == Undo(a[i], Change(RerootedPath(c2.path), c2.oldValue));
        }
      }
      assert u1.items == u2.items;
    case _ =>
  }

  /** The first step of `Undo` on a pointer with a trailing '/': same token, rest keeps the '/'. */
  lemma TrailingStep(p: seq<string>)
    requires PlainTokens(p) && p != []
    requires SlashFreeTokens(p + [""])
    ensures Pointer(p + [""]) != "" && Pointer(p) != ""
    ensures FirstToken(Pointer(p + [""])) == FirstToken(Pointer(p))
    ensures RerootedPath(Pointer(p)) == Pointer(p[1..])
    ensures p[1..] == [] ==> RerootedPath(Pointer(p + [""])) == ""
    ensures p[1..] != [] ==> RerootedPath(Pointer(p + [""])) == Pointer(p[1..] + [""])
    ensures PlainTokens(p[1..]) && SlashFreeTokens(p[1..] + [""])
  {
    var s, rest := p[0], p[1..];
    var long := p + [""];
    PlainTail(p);
    assert long == [s] + (rest + [""]);
    var tokens := [""] + long;
    SplitJoinSlash(tokens);
    JoinPrepend("", long, "/");
    assert Split(Pointer(long), "/") == tokens;
    RerootedPointer(s, rest);
    if rest == [] {
      assert tokens[2..] == [""];
    } else {
      assert tokens[2..] == rest + [""];
      JoinLength(rest + [""], "/");
      JoinPrepend("", rest + [""], "/");
    }
    assert forall k :: 0 <= k < |rest + [""]| ==> (rest + [""])[k] == long[k + 1];
  }

  /**
   * The re-rooting drops a trailing empty token: a change at "/a/" reverts
   * exactly what a change at "/a" reverts.
   */
  lemma {:induction false} UndoTrailingSlash(o: Json, p: seq<string>, v: Json)
    requires PlainTokens(p) && p != []
    requires SlashFreeTokens(p + [""])
    ensures Undo(o, Change(Pointer(p + [""]), v)) == Undo(o, Change(Pointer(p), v))
    decreases |p|
  {
    var rest := p[1..];
    var c1, c2 := Change(Pointer(p + [""]), v), Change(Pointer(p), v);
    TrailingStep(p);
    if rest != [] {
      forall x ensures Undo(x, Change(RerootedPath(c1.path), v)) == Undo(x, Change(RerootedPath(c2.path), v)) {
        UndoTrailingSlash(x, rest, v);
      }
    }
    UndoSameStep(o, c1, c2);
  }
}
