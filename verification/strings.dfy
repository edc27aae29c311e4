/**
 * The JavaScript string primitives the resolver relies on:
 * `String.prototype.split` with a non-empty separator, `Array.prototype.join`,
 * and the decimal rendering of array indices (`String(index)`).
 */
module Strings {
  import opened Wrappers

  /** True when `sep` occurs in `s` starting at index `i`. */
  predicate OccursAt(s: string, sep: string, i: int)
  {
    0 <= i && i + |sep| <= |s| && s[i..i + |sep|] == sep
  }

  lemma OccursAtShift(s: string, sep: string, j: int)
    requires |s| > 0 && 1 <= j
    ensures OccursAt(s, sep, j) == OccursAt(s[1..], sep, j - 1)
  {
    if j + |sep| <= |s| {
      assert s[1..][j - 1..j - 1 + |sep|] == s[j..j + |sep|];
    }
  }

  /** Index of the leftmost occurrence of `sep` in `s`, as `String.prototype.indexOf`. */
  function IndexOf(s: string, sep: string): (r: Option<nat>)
    requires |sep| > 0
    ensures r.Some? ==> OccursAt(s, sep, r.value)
    ensures r.Some? ==> forall j :: 0 <= j < r.value ==> !OccursAt(s, sep, j)
    ensures r.None? ==> forall j :: !OccursAt(s, sep, j)
    decreases |s|
  {
    if |s| < |sep| then None
    else if s[..|sep|] == sep then Some(0)
    else
      var tail := IndexOf(s[1..], sep);
      assert forall j :: 1 <= j ==> OccursAt(s, sep, j) == OccursAt(s[1..], sep, j - 1) by {
        forall j | 1 <= j {
          OccursAtShift(s, sep, j);
        }
      }
      match tail
      case None => None
      case Some(j) => Some(j + 1)
  }

  /** `s.includes(sep)`. */
  predicate Contains(s: string, sep: string)
  {
    exists j :: 0 <= j <= |s| && OccursAt(s, sep, j)
  }

  /** The leftmost occurrence is the only index that satisfies the contract of IndexOf. */
  lemma IndexOfIs(s: string, sep: string, i: nat)
    requires |sep| > 0
    requires OccursAt(s, sep, i)
    requires forall j :: 0 <= j < i ==> !OccursAt(s, sep, j)
    ensures IndexOf(s, sep) == Some(i)
  {
  }

  /**
   * `s.split(sep)` for a non-empty string separator: the pieces between the
   * successive leftmost non-overlapping occurrences of `sep`.
   */
  function Split(s: string, sep: string): (parts: seq<string>)
    requires |sep| > 0
    ensures |parts| >= 1
    decreases |s|
  {
    match IndexOf(s, sep)
    case None => [s]
    case Some(i) => [s[..i]] + Split(s[i + |sep|..], sep)
  }

  /** A split has more than one piece exactly when the separator occurs. */
  lemma SplitPieces(s: string, sep: string)
    requires |sep| > 0
    ensures |Split(s, sep)| == 1 <==> IndexOf(s, sep).None?
    ensures |Split(s, sep)| == 1 <==> !Contains(s, sep)
    ensures Split(s, sep)[0] == s <==> |Split(s, sep)| == 1
  {
    match IndexOf(s, sep)
    case None =>
    case Some(i) =>
      assert OccursAt(s, sep, i);
      assert |s[..i]| < |s|;
  }

  /** `parts.join(sep)`. */
  function Join(parts: seq<string>, sep: string): string
  {
    if |parts| == 0 then ""
    else if |parts| == 1 then parts[0]
    else parts[0] + sep + Join(parts[1..], sep)
  }

  /** Joining the pieces of a split with the same separator gives the string back. */
  lemma {:induction false} JoinSplit(s: string, sep: string)
    requires |sep| > 0
    ensures Join(Split(s, sep), sep) == s
    decreases |s|
  {
    var r := IndexOf(s, sep);
    if r.Some? {
      var i := r.value;
      var rest := s[i + |sep|..];
      assert Split(s, sep) == [s[..i]] + Split(rest, sep);
      JoinSplit(rest, sep);
      JoinPrepend(s[..i], Split(rest, sep), sep);
      assert Join(Split(s, sep), sep) == s[..i] + sep + rest;
      assert OccursAt(s, sep, i);
      assert s[i..i + |sep|] == sep;
      Concat3(s, i, i + |sep|);
    }
  }

  lemma Concat3(s: string, i: nat, j: nat)
    requires i <= j <= |s|
    ensures s == s[..i] + s[i..j] + s[j..]
  {
  }

  lemma JoinPrepend(x: string, ys: seq<string>, sep: string)
    requires |ys| >= 1
    ensures Join([x] + ys, sep) == x + sep + Join(ys, sep)
  {
    assert ([x] + ys)[1..] == ys;
  }

  /** For a one-character separator, an occurrence is just that character. */
  lemma OccursSlash(s: string, j: int)
    ensures OccursAt(s, "/", j) <==> 0 <= j < |s| && s[j] == '/'
  {
    if 0 <= j < |s| {
      assert s[j..j + 1] == [s[j]];
    }
  }

  /** `s.indexOf('/')` is the position of the first '/' of `s`. */
  lemma IndexOfSlash(s: string)
    ensures IndexOf(s, "/").None? <==> '/' !in s
    ensures IndexOf(s, "/").Some? ==>
      var i := IndexOf(s, "/").value;
      i < |s| && s[i] == '/' && forall j :: 0 <= j < i ==> s[j] != '/'
  {
    match IndexOf(s, "/")
    case None =>
      forall j | 0 <= j < |s| ensures s[j] != '/' {
        OccursSlash(s, j);
      }
    case Some(i) =>
      OccursSlash(s, i);
      forall j | 0 <= j < i ensures s[j] != '/' {
        OccursSlash(s, j);
      }
  }

  /** The first '/' of `s` is what `s.indexOf('/')` finds. */
  lemma IndexOfSlashIs(s: string, i: nat)
    requires i < |s| && s[i] == '/'
    requires forall j :: 0 <= j < i ==> s[j] != '/'
    ensures IndexOf(s, "/") == Some(i)
  {
    OccursSlash(s, i);
    forall j | 0 <= j < i ensures !OccursAt(s, "/", j) {
      OccursSlash(s, j);
    }
    IndexOfIs(s, "/", i);
  }

  lemma SlashFree(s: string)
    requires '/' !in s
    ensures Split(s, "/") == [s]
  {
    IndexOfSlash(s);
  }

  /** Splitting at the first '/' of `s`, found at `i`. */
  lemma SplitAtSlash(s: string, i: nat)
    requires i < |s| && s[i] == '/'
    requires forall j :: 0 <= j < i ==> s[j] != '/'
    ensures Split(s, "/") == [s[..i]] + Split(s[i + 1..], "/")
  {
    IndexOfSlashIs(s, i);
  }

  /** Splitting at a '/' that is written between two strings splits each of them. */
  lemma {:induction false} SplitConcatSlash(a: string, b: string)
    ensures Split(a + "/" + b, "/") == Split(a, "/") + Split(b, "/")
    decreases |a|
  {
    if '/' !in a {
      SplitConcatFree(a, b);
    } else {
      var i := FirstSlash(a);
      var tail := a[i + 1..];
      SplitConcatAt(a, b, i);
      SplitConcatSlash(tail, b);
      SplitAtSlash(a, i);
      SeqAssoc([a[..i]], Split(tail, "/"), Split(b, "/"));
    }
  }

  lemma SeqAssoc(x: seq<string>, y: seq<string>, z: seq<string>)
    ensures x + (y + z) == (x + y) + z
  {
  }

  /** When `a` has no '/', the '/' after it is the first one. */
  lemma SplitConcatFree(a: string, b: string)
    requires '/' !in a
    ensures Split(a + "/" + b, "/") == [a] + Split(b, "/")
    ensures Split(a, "/") == [a]
  {
    var s := a + "/" + b;
    assert forall j :: 0 <= j < |a| ==> s[j] == a[j];
    SplitAtSlash(s, |a|);
    assert s[..|a|] == a && s[|a| + 1..] == b;
    SlashFree(a);
  }

  /** The first '/' of `a + "/" + b` is that of `a` when `a` has one. */
  lemma SplitConcatAt(a: string, b: string, i: nat)
    requires i < |a| && a[i] == '/'
    requires forall j :: 0 <= j < i ==> a[j] != '/'
    ensures Split(a + "/" + b, "/") == [a[..i]] + Split(a[i + 1..] + "/" + b, "/")
  {
    var s := a + "/" + b;
    assert forall j :: 0 <= j <= i ==> s[j] == a[j];
    SplitAtSlash(s, i);
    assert s[..i] == a[..i];
    assert s[i + 1..] == a[i + 1..] + "/" + b;
  }

  /** The position of the first '/' in a string that has one. */
  function FirstSlash(s: string): (i: nat)
    requires '/' in s
    ensures i < |s| && s[i] == '/'
    ensures forall j :: 0 <= j < i ==> s[j] != '/'
  {
    if s[0] == '/' then 0 else 1 + FirstSlash(s[1..])
  }

  /** No piece of a split at '/' contains a '/'. */
  lemma {:induction false} SplitSlashPieces(s: string)
    ensures forall k :: 0 <= k < |Split(s, "/")| ==> '/' !in Split(s, "/")[k]
    decreases |s|
  {
    IndexOfSlash(s);
    match IndexOf(s, "/")
    case None =>
    case Some(i) =>
      SplitSlashPieces(s[i + 1..]);
      assert forall j :: 0 <= j < i ==> s[..i][j] == s[j];
  }

  /** Splitting a '/'-join of slash-free pieces gives the pieces back. */
  lemma {:induction false} SplitJoinSlash(xs: seq<string>)
    requires |xs| >= 1
    requires forall k :: 0 <= k < |xs| ==> '/' !in xs[k]
    ensures Split(Join(xs, "/"), "/") == xs
    decreases |xs|
  {
    if |xs| == 1 {
      SlashFree(xs[0]);
    } else {
      SplitConcatSlash(xs[0], Join(xs[1..], "/"));
      SlashFree(xs[0]);
      SplitJoinSlash(xs[1..]);
    }
  }

  /** A join ends with its last piece, so it is at least that long. */
  lemma {:induction false} JoinLength(xs: seq<string>, sep: string)
    requires |xs| >= 1
    ensures |Join(xs, sep)| >= |xs[|xs| - 1]|
    ensures |xs| >= 2 ==> |Join(xs, sep)| >= |sep|
    decreases |xs|
  {
    if |xs| >= 2 {
      JoinLength(xs[1..], sep);
    }
  }

  // ---------------------------------------------------------------------
  // Decimal array indices
  // ---------------------------------------------------------------------

  predicate IsDigit(c: char)
  {
    '0' <= c <= '9'
  }

  predicate AllDigits(s: string)
  {
    forall i :: 0 <= i < |s| ==> IsDigit(s[i])
  }

  function DigitChar(d: nat): (c: char)
    requires d < 10
    ensures IsDigit(c) && c as int - '0' as int == d
  {
    ('0' as int + d) as char
  }

  /** `String(n)` for a non-negative integer: its decimal digits, without leading zeros. */
  function IndexString(n: nat): (s: string)
    ensures |s| >= 1 && AllDigits(s)
    ensures (s[0] == '0') == (n == 0)
    ensures (|s| == 1) == (n < 10)
    decreases n
  {
    if n < 10 then [DigitChar(n)] else IndexString(n / 10) + [DigitChar(n % 10)]
  }

  /** The number a string of decimal digits denotes. */
  function DigitsValue(s: string): nat
    requires AllDigits(s)
  {
    if |s| == 0 then 0
    else DigitsValue(s[..|s| - 1]) * 10 + (s[|s| - 1] as int - '0' as int)
  }

  /**
   * The array index a property name denotes: a canonical decimal numeral
   * (no sign, no leading zero unless it is "0"), as JavaScript arrays read
   * their element keys.
   */
  function ParseIndex(s: string): Option<nat>
  {
    if |s| == 0 || (|s| > 1 && s[0] == '0') || !AllDigits(s) then None
    else Some(DigitsValue(s))
  }

  /** A numeral without a leading zero denotes at least 10^(length-1), so at least 1 when long. */
  lemma {:induction false} DigitsValueLeading(s: string)
    requires |s| >= 1 && AllDigits(s) && s[0] != '0'
    ensures DigitsValue(s) >= 1
    ensures |s| >= 2 ==> DigitsValue(s) >= 10
    decreases |s|
  {
    if |s| >= 2 {
      DigitsValueLeading(s[..|s| - 1]);
    }
  }

  /** Reading back the decimal rendering of an index gives the index. */
  lemma {:induction false} ParseIndexString(n: nat)
    ensures ParseIndex(IndexString(n)) == Some(n)
    decreases n
  {
    if n < 10 {
      var s := IndexString(n);
      assert s == [DigitChar(n)];
      assert s[..0] == [];
      assert DigitsValue(s) == DigitsValue(s[..0]) * 10 + (s[0] as int - '0' as int);
    } else {
      ParseIndexString(n / 10);
      var s := IndexString(n);
      assert s[..|s| - 1] == IndexString(n / 10);
    }
  }

  /** A string that reads as index `n` is exactly the decimal rendering of `n`. */
  lemma {:induction false} IndexStringParse(s: string, n: nat)
    requires ParseIndex(s) == Some(n)
    ensures IndexString(n) == s
    decreases |s|
  {
    if |s| >= 2 {
      var init := s[..|s| - 1];
      assert AllDigits(init);
      assert init[0] == s[0];
      DigitsValueLeading(init);
      DigitsValueLeading(s);
      assert ParseIndex(init) == Some(DigitsValue(init));
      IndexStringParse(init, DigitsValue(init));
      assert s == init + [s[|s| - 1]];
    }
  }

  /** Distinct indices have distinct decimal renderings. */
  lemma IndexStringInjective(i: nat, j: nat)
    requires IndexString(i) == IndexString(j)
    ensures i == j
  {
    ParseIndexString(i);
    ParseIndexString(j);
  }
}
