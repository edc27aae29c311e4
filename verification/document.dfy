/**
 * JSON-like documents and the three external helpers the resolver calls:
 * `isJsonPointer`, `getPathValue` and `isAncestor`. Their packages are not
 * part of this model; each is stated here as the behaviour the resolver
 * assumes of it.
 */
module Document {
  import opened Wrappers
  import opened Strings

  /**
   * A JavaScript value as the resolver sees it. `Undefined` is a value in its
   * own right: an omitted `old_value` reads as `Undefined`, which is distinct
   * from `Null`.
   */
  datatype Json =
    | Undefined
    | Null
    | Bool(b: bool)
    | Num(n: int)
    | Str(s: string)
    | Arr(items: seq<Json>)
    | Obj(fields: map<string, Json>)

  /** True when `token` names an existing member of `doc` (a key, or an in-range index). */
  predicate Has(doc: Json, token: string)
  {
    match doc
    case Obj(m) => token in m
    case Arr(a) => ParseIndex(token).Some? && ParseIndex(token).value < |a|
    case _ => false
  }

  /** The member `token` names, or `Undefined` when there is none. */
  function Child(doc: Json, token: string): (r: Json)
    ensures !Has(doc, token) ==> r == Undefined
  {
    match doc
    case Obj(m) => if token in m then m[token] else Undefined
    case Arr(a) =>
      (match ParseIndex(token)
       case Some(i) => if i < |a| then a[i] else Undefined
       case None => Undefined)
    case _ => Undefined
  }

  /** Follows the tokens one by one; any missing member yields `Undefined`. */
  function Lookup(doc: Json, tokens: seq<string>): Json
    decreases |tokens|
  {
    if tokens == [] then doc else Lookup(Child(doc, tokens[0]), tokens[1..])
  }

  /** Looking up a concatenation of token lists is looking up one after the other. */
  lemma {:induction false} LookupAppend(doc: Json, xs: seq<string>, ys: seq<string>)
    ensures Lookup(doc, xs + ys) == Lookup(Lookup(doc, xs), ys)
    decreases |xs|
  {
    if xs == [] {
      assert xs + ys == ys;
    } else {
      assert (xs + ys)[0] == xs[0];
      assert (xs + ys)[1..] == xs[1..] + ys;
      LookupAppend(Child(doc, xs[0]), xs[1..], ys);
    }
  }

  /** The reference tokens of a pointer: its '/'-separated pieces after the leading one. */
  function Tokens(pointer: string): seq<string>
  {
    Split(pointer, "/")[1..]
  }

  /** The pointer that spells the given tokens: "" for none, else "/t1/t2/...". */
  function Pointer(tokens: seq<string>): string
  {
    Join([""] + tokens, "/")
  }

  /** A token list a pointer can spell: no token holds a '/'. */
  predicate SlashFreeTokens(tokens: seq<string>)
  {
    forall k :: 0 <= k < |tokens| ==> '/' !in tokens[k]
  }

  /**
   * The external `getPathValue(doc, pointer)`: evaluation of a JSON pointer
   * (section 4 of RFC 6901) with `Undefined` for any missing member. Tokens are
   * compared as written; `~0`/`~1` escapes are not decoded.
   */
  function GetPathValue(doc: Json, pointer: string): Json
  {
    Lookup(doc, Tokens(pointer))
  }

  /**
   * The external `isJsonPointer(s)`: the syntax of section 3 of RFC 6901. The
   * string is empty or starts with '/', and every '~' begins an escape `~0` or `~1`.
   */
  predicate IsJsonPointer(s: string)
  {
    && (s == "" || s[0] == '/')
    && forall i :: 0 <= i < |s| && s[i] == '~' ==> i + 1 < |s| && (s[i + 1] == '0' || s[i + 1] == '1')
  }

  /**
   * The external `isAncestor(a, b)`: `a` is a strict prefix of `b` that ends on a
   * token boundary. Equal pointers are not ancestors of each other.
   */
  predicate IsAncestor(a: string, b: string)
  {
    |a| < |b| && b[..|a|] == a && b[|a|] == '/'
  }

  /** `a` is `b` or an ancestor of it. */
  predicate AncestorOrSelf(a: string, b: string)
  {
    a == b || IsAncestor(a, b)
  }

  /** A pointer's tokens spell the pointer back: `Pointer` inverts `Tokens` on valid pointers. */
  lemma PointerOfTokens(s: string)
    requires IsJsonPointer(s)
    ensures Pointer(Tokens(s)) == s
  {
    if s != "" {
      var t := s[1..];
      assert s == "" + "/" + t;
      SplitConcatSlash("", t);
      assert Split("", "/") == [""];
      JoinSplit(t, "/");
      assert Split(s, "/") == [""] + Split(t, "/");
      JoinPrepend("", Split(t, "/"), "/");
    }
  }

  /** `Tokens` inverts `Pointer` on slash-free tokens. */
  lemma TokensOfPointer(tokens: seq<string>)
    requires SlashFreeTokens(tokens)
    ensures Tokens(Pointer(tokens)) == tokens
  {
    SplitJoinSlash([""] + tokens);
  }

  /** The tokens of a pointer under an ancestor extend the ancestor's tokens. */
  lemma TokensOfDescendant(a: string, b: string)
    requires IsAncestor(a, b)
    ensures Tokens(b) == Tokens(a) + Tokens(b[|a|..])
  {
    var t := b[|a| + 1..];
    var pa, pt := Split(a, "/"), Split(t, "/");
    assert Split(b, "/") == pa + pt by {
      assert b == a + "/" + t;
      SplitConcatSlash(a, t);
    }
    assert Tokens(b[|a|..]) == pt by {
      assert b[|a|..] == "" + "/" + t;
      SplitConcatSlash("", t);
      SlashFree("");
    }
    DropFirst(pa, pt);
  }

  lemma DropFirst(xs: seq<string>, ys: seq<string>)
    requires |xs| >= 1
    ensures (xs + ys)[1..] == xs[1..] + ys
  {
  }

  /**
   * Re-rooting is sound: reading the rest of `p` below its ancestor `a` inside
   * the value found at `a` is reading `p` in the whole document.
   */
  lemma LookupBelowAncestor(doc: Json, a: string, p: string)
    requires AncestorOrSelf(a, p)
    ensures GetPathValue(GetPathValue(doc, a), p[|a|..]) == GetPathValue(doc, p)
  {
    if a == p {
      assert p[|a|..] == "";
      assert Split("", "/") == [""];
    } else {
      TokensOfDescendant(a, p);
      LookupAppend(doc, Tokens(a), Tokens(p[|a|..]));
    }
  }

  /** Ancestry is transitive, and two ancestors-or-self of one pointer are nested. */
  lemma AncestorTransitive(a: string, b: string, c: string)
    requires IsAncestor(a, b) && IsAncestor(b, c)
    ensures IsAncestor(a, c)
  {
    assert c[..|a|] == c[..|b|][..|a|];
  }

  lemma AncestorsNested(a: string, b: string, p: string)
    requires AncestorOrSelf(a, p) && AncestorOrSelf(b, p) && |a| <= |b|
    ensures AncestorOrSelf(a, b)
  {
    if a != p && b != p {
      assert b[..|a|] == p[..|b|][..|a|];
      if |a| < |b| {
        assert b[|a|] == p[|a|];
      } else {
        assert a == p[..|a|] == b;
      }
    } else if b == p {
    } else {
      assert false;
    }
  }
}
