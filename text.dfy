/**
 * String operations of the JavaScript runtime that the task relies on:
 * `indexOf`, `replace` with a string pattern (first occurrence only),
 * `split` and `join` on one character, and hexadecimal digits as the
 * character class `[a-fA-F0-9]` names them.
 */
module Text {
  import opened Wrappers

  lemma AppendAssoc<T>(a: seq<T>, b: seq<T>, c: seq<T>)
    ensures (a + b) + c == a + (b + c)
  {
  }

  lemma ConsAssoc<T>(a: seq<T>, r: seq<T>)
    requires a != []
    ensures [a[0]] + (a[1..] + r) == a + r
  {
    assert [a[0]] + a[1..] == a;
  }

  lemma InSnoc<T>(init: seq<T>, last: T, x: T)
    ensures x in init + [last] <==> x in init || x == last
  {
  }

  lemma EmptyLeft<T>(a: seq<T>, b: seq<T>)
    ensures [] + a + b == a + b
  {
  }

  predicate StartsWith(s: string, p: string) {
    |p| <= |s| && s[..|p|] == p
  }

  predicate EndsWith(s: string, p: string) {
    |p| <= |s| && s[|s| - |p|..] == p
  }

  /** A common prefix does not change whether one text starts with another. */
  lemma StartsWithCommon(a: string, x: string, y: string)
    ensures StartsWith(a + x, a + y) <==> StartsWith(x, y)
  {
    if StartsWith(x, y) {
      assert (a + x)[..|a + y|] == a + x[..|y|];
    }
    if StartsWith(a + x, a + y) {
      assert x[..|y|] == (a + x)[..|a + y|][|a|..];
    }
  }

  lemma EndsWithTrans(a: string, b: string, c: string)
    requires EndsWith(a, b) && EndsWith(b, c)
    ensures EndsWith(a, c)
  {
    assert a[|a| - |c|..] == b[|b| - |c|..];
  }

  /** `p` occurs in `s` at index `k`. */
  predicate OccursAt(s: string, p: string, k: nat) {
    k + |p| <= |s| && s[k..k + |p|] == p
  }

  /** The first index at or after `from` where `p` occurs in `s`. */
  function IndexFrom(s: string, p: string, from: nat): (r: Option<nat>)
    requires from <= |s|
    ensures r.Some? ==> from <= r.value <= |s| && OccursAt(s, p, r.value)
    ensures forall k :: from <= k <= |s| && (r.None? || k < r.value) ==> !OccursAt(s, p, k)
    decreases |s| - from
  {
    if OccursAt(s, p, from) then Some(from)
    else if from == |s| then None
    else IndexFrom(s, p, from + 1)
  }

  /** `s.indexOf(p)`, with `None` for -1. */
  function IndexOf(s: string, p: string): (r: Option<nat>)
    ensures r.Some? ==> OccursAt(s, p, r.value)
    ensures forall k :: 0 <= k <= |s| && (r.None? || k < r.value) ==> !OccursAt(s, p, k)
  {
    IndexFrom(s, p, 0)
  }

  /** `s.replace(p, rep)` for a string `p`: only the first occurrence is replaced. */
  function ReplaceFirst(s: string, p: string, rep: string): (r: string)
    ensures (forall k :: 0 <= k <= |s| ==> !OccursAt(s, p, k)) ==> r == s
  {
    match IndexOf(s, p)
    case None => s
    case Some(k) => s[..k] + rep + s[k + |p|..]
  }

  /** The first occurrence is determined by its defining property. */
  lemma IndexOfAt(s: string, p: string, k: nat)
    requires OccursAt(s, p, k)
    requires forall j :: 0 <= j < k ==> !OccursAt(s, p, j)
    ensures IndexOf(s, p) == Some(k)
  {
  }

  /** Deleting the first occurrence of a suffix that occurs nowhere earlier leaves the rest. */
  lemma ReplaceFirstOfSuffix(t: string, p: string)
    requires forall k :: 0 <= k < |t| ==> !OccursAt(t + p, p, k)
    ensures ReplaceFirst(t + p, p, "") == t
  {
    var s := t + p;
    assert OccursAt(s, p, |t|) by { assert s[|t|..|t| + |p|] == p; }
    assert IndexOf(s, p) == Some(|t|);
    assert s[..|t|] == t;
  }

  /** Deleting the first occurrence of `p` in `a + p + b`, where it occurs nowhere within `a`, leaves `a + b`. */
  lemma ReplaceFirstOfMiddle(a: string, p: string, b: string)
    requires forall k :: 0 <= k < |a| ==> !OccursAt(a + p + b, p, k)
    ensures ReplaceFirst(a + p + b, p, "") == a + b
  {
    var s := a + p + b;
    assert OccursAt(s, p, |a|) by { assert s[|a|..|a| + |p|] == p; }
    IndexOfAt(s, p, |a|);
    assert s[..|a|] == a;
    assert s[|a| + |p|..] == b;
  }

  /** A text that begins with a dotless part holds no occurrence of a dotted string inside that part. */
  lemma NoDotBefore(a: string, b: string, p: string)
    requires '.' !in a && p != [] && p[0] == '.'
    ensures forall k :: 0 <= k < |a| ==> !OccursAt(a + b, p, k)
  {
    var s := a + b;
    forall k | 0 <= k < |a| ensures !OccursAt(s, p, k) {
      assert s[k] == a[k];
      if k + |p| <= |s| {
        assert s[k..k + |p|][0] == s[k];
      }
    }
  }

  /** The same, for a string that ends with `p`. */
  lemma ReplaceFirstOfEnding(s: string, p: string)
    requires EndsWith(s, p)
    requires forall k :: 0 <= k < |s| - |p| ==> !OccursAt(s, p, k)
    ensures ReplaceFirst(s, p, "") == s[..|s| - |p|]
    ensures s == s[..|s| - |p|] + p
  {
    var t := s[..|s| - |p|];
    assert s == t + p;
    ReplaceFirstOfSuffix(t, p);
  }

  /** Deleting the first occurrence of the empty string changes nothing. */
  lemma ReplaceFirstEmpty(s: string)
    ensures ReplaceFirst(s, "", "") == s
  {
    assert OccursAt(s, "", 0);
    assert IndexOf(s, "") == Some(0);
  }

  predicate IsHexDigit(c: char) {
    ('0' <= c <= '9') || ('a' <= c <= 'f') || ('A' <= c <= 'F')
  }

  predicate IsHex(s: string) {
    forall i :: 0 <= i < |s| ==> IsHexDigit(s[i])
  }

  /** `parts.join(d)`. */
  function Join(parts: seq<string>, d: char): string
  {
    if parts == [] then ""
    else if |parts| == 1 then parts[0]
    else parts[0] + [d] + Join(parts[1..], d)
  }

  /** `s.split(d)` for a one-character separator: the pieces between the separators, in order. */
  function Split(s: string, d: char): (parts: seq<string>)
    ensures |parts| >= 1
    ensures forall i :: 0 <= i < |parts| ==> d !in parts[i]
    ensures Join(parts, d) == s
  {
    if s == [] then [""]
    else
      var rest := Split(s[1..], d);
      if s[0] == d then
        assert ([""] + rest)[1..] == rest;
        [""] + rest
      else
        var parts := [[s[0]] + rest[0]] + rest[1..];
        assert parts[1..] == rest[1..];
        assert s == [s[0]] + s[1..];
        parts
  }

  /** Joining all but the last piece and then appending the last one is joining them all. */
  lemma {:induction false} JoinSnoc(parts: seq<string>, d: char)
    requires |parts| >= 2
    ensures Join(parts[..|parts| - 1], d) + [d] + parts[|parts| - 1] == Join(parts, d)
  {
    if |parts| == 2 {
      assert parts[..1] == [parts[0]];
    } else {
      var tail := parts[1..];
      JoinSnoc(tail, d);
      assert parts[..|parts| - 1][1..] == tail[..|tail| - 1];
      assert |parts[..|parts| - 1]| >= 2;
    }
  }

  /** A join of two or more pieces contains the separator. */
  lemma JoinHasSeparator(parts: seq<string>, d: char)
    requires |parts| >= 2
    ensures d in Join(parts, d)
  {
    var j := Join(parts, d);
    assert j == parts[0] + [d] + Join(parts[1..], d);
    assert j[|parts[0]|] == d;
  }

  /** A string splits in only one way around a separator that the part after it does not contain. */
  lemma LastSeparatorUnique(a: string, x: string, b: string, y: string, d: char)
    requires a + [d] + x == b + [d] + y
    requires d !in x && d !in y
    ensures a == b && x == y
  {
    var s := a + [d] + x;
    assert s[|a|] == d && s[|b|] == d;
    assert s[..|a|] == a && s[..|b|] == b;
    assert s[|a| + 1..] == x && s[|b| + 1..] == y;
  }
}
