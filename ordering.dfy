/**
 * The order in which the asset list is processed: `Array.prototype.sort()`
 * without a comparator (strings compared character by character, a proper
 * prefix first), followed by `reverse()`.
 */
module Ordering {
  import opened Text

  /** `a` sorts no later than `b`. */
  predicate Below(a: string, b: string)
    decreases |a|
  {
    a == [] || (b != [] && (a[0] < b[0] || (a[0] == b[0] && Below(a[1..], b[1..]))))
  }

  lemma {:induction false} BelowTotal(a: string, b: string)
    ensures Below(a, b) || Below(b, a)
    decreases |a|
  {
    if a != [] && b != [] && a[0] == b[0] {
      BelowTotal(a[1..], b[1..]);
    }
  }

  lemma {:induction false} BelowReflexive(a: string)
    ensures Below(a, a)
    decreases |a|
  {
    if a != [] { BelowReflexive(a[1..]); }
  }

  lemma {:induction false} BelowAntisymmetric(a: string, b: string)
    requires Below(a, b) && Below(b, a)
    ensures a == b
    decreases |a|
  {
    if a != [] {
      BelowAntisymmetric(a[1..], b[1..]);
      assert a == [a[0]] + a[1..] && b == [b[0]] + b[1..];
    }
  }

  lemma {:induction false} BelowTransitive(a: string, b: string, c: string)
    requires Below(a, b) && Below(b, c)
    ensures Below(a, c)
    decreases |a|
  {
    if a != [] && b != [] && c != [] && a[0] == b[0] && b[0] == c[0] {
      BelowTransitive(a[1..], b[1..], c[1..]);
    }
  }

  predicate Ascending(s: seq<string>) {
    forall i, j :: 0 <= i < j < |s| ==> Below(s[i], s[j])
  }

  predicate Descending(s: seq<string>) {
    forall i, j :: 0 <= i < j < |s| ==> Below(s[j], s[i])
  }

  /** Inserts `x` before the first element of `s` that it sorts no later than. */
  function Insert(x: string, s: seq<string>): (r: seq<string>)
    ensures multiset(r) == multiset(s) + multiset{x}
  {
    if s == [] then [x]
    else if Below(x, s[0]) then
      assert s == [s[0]] + s[1..];
      [x] + s
    else
      assert s == [s[0]] + s[1..];
      [s[0]] + Insert(x, s[1..])
  }

  /** Inserting into an ascending sequence keeps it ascending. */
  lemma {:induction false} InsertAscending(x: string, s: seq<string>)
    requires Ascending(s)
    ensures Ascending(Insert(x, s))
  {
    if s == [] {
    } else if Below(x, s[0]) {
      forall j | 0 <= j < |s| ensures Below(x, s[j]) {
        if j > 0 { BelowTransitive(x, s[0], s[j]); }
      }
    } else {
      InsertAscending(x, s[1..]);
      BelowTotal(x, s[0]);
      HeadBelowInsert(x, s);
      ConsAscending(s[0], Insert(x, s[1..]));
    }
  }

  /** An element below the whole of an ascending sequence can go in front of it. */
  lemma ConsAscending(h: string, r: seq<string>)
    requires Ascending(r)
    requires forall k :: 0 <= k < |r| ==> Below(h, r[k])
    ensures Ascending([h] + r)
  {
    var t := [h] + r;
    forall i, j | 0 <= i < j < |t| ensures Below(t[i], t[j]) {
      assert t[j] == r[j - 1];
      if i > 0 {
        assert t[i] == r[i - 1];
      }
    }
  }

  /** The head of an ascending sequence stays below its tail after an element above it is inserted there. */
  lemma HeadBelowInsert(x: string, s: seq<string>)
    requires s != [] && Ascending(s) && Below(s[0], x)
    ensures forall k :: 0 <= k < |Insert(x, s[1..])| ==> Below(s[0], Insert(x, s[1..])[k])
  {
    var rest := Insert(x, s[1..]);
    forall k | 0 <= k < |rest| ensures Below(s[0], rest[k]) {
      var y := rest[k];
      assert y in multiset(rest);
      if y != x {
        assert y in multiset(s[1..]);
        var m :| 0 <= m < |s[1..]| && s[1..][m] == y;
        assert s[m + 1] == y;
      }
    }
  }

  /** `s.sort()`: insertion sort, which yields the one ascending arrangement of `s`. */
  function SortAscending(s: seq<string>): (r: seq<string>)
    ensures Ascending(r)
    ensures multiset(r) == multiset(s)
  {
    if s == [] then []
    else
      assert s == [s[0]] + s[1..];
      InsertAscending(s[0], SortAscending(s[1..]));
      Insert(s[0], SortAscending(s[1..]))
  }

  /** `s.reverse()`. */
  function Reverse(s: seq<string>): (r: seq<string>)
    ensures |r| == |s|
    ensures forall i :: 0 <= i < |s| ==> r[i] == s[|s| - 1 - i]
  {
    if s == [] then [] else Reverse(s[1..]) + [s[0]]
  }

  lemma {:induction false} ReverseMultiset(s: seq<string>)
    ensures multiset(Reverse(s)) == multiset(s)
  {
    if s != [] {
      ReverseMultiset(s[1..]);
      assert s == [s[0]] + s[1..];
    }
  }

  /** `s.sort().reverse()`. */
  function SortDescending(s: seq<string>): seq<string>
  {
    Reverse(SortAscending(s))
  }

  /** The processing order is descending and holds exactly the listed paths, each as often as listed. */
  lemma SortDescendingSpec(s: seq<string>)
    ensures Descending(SortDescending(s))
    ensures multiset(SortDescending(s)) == multiset(s)
  {
    ReverseMultiset(SortAscending(s));
    ReverseAscending(SortAscending(s));
  }

  lemma ReverseAscending(a: seq<string>)
    requires Ascending(a)
    ensures Descending(Reverse(a))
  {
    var r := Reverse(a);
    forall i, j | 0 <= i < j < |r| ensures Below(r[j], r[i]) {
      assert r[i] == a[|a| - 1 - i] && r[j] == a[|a| - 1 - j];
    }
  }

  /** The head of an ascending sequence sorts no later than any of its elements. */
  lemma HeadIsLeast(a: seq<string>, y: string)
    requires Ascending(a) && y in multiset(a)
    ensures Below(a[0], y)
  {
    var i :| 0 <= i < |a| && a[i] == y;
    if i == 0 { BelowReflexive(y); }
  }

  lemma TailMultiset(a: seq<string>)
    requires a != []
    ensures multiset(a[1..]) == multiset(a) - multiset{a[0]}
  {
    assert a == [a[0]] + a[1..];
    assert multiset(a) == multiset([a[0]]) + multiset(a[1..]);
  }

  /**
   * Any sort that orders by `Below` yields the same sequence: two ascending
   * arrangements of the same strings are equal, so ties cannot be reordered.
   */
  lemma {:induction false} AscendingUnique(a: seq<string>, b: seq<string>)
    requires Ascending(a) && Ascending(b)
    requires multiset(a) == multiset(b)
    ensures a == b
    decreases |a|
  {
    if a == [] {
      assert |multiset(b)| == 0;
    } else {
      assert a[0] in multiset(a);
      assert b != [];
      assert b[0] in multiset(b);
      HeadIsLeast(a, b[0]);
      HeadIsLeast(b, a[0]);
      BelowAntisymmetric(a[0], b[0]);
      TailMultiset(a);
      TailMultiset(b);
      AscendingUnique(a[1..], b[1..]);
      assert a == [a[0]] + a[1..] && b == [b[0]] + b[1..];
    }
  }

  /** A prefix sorts no later than the strings it begins. */
  lemma {:induction false} PrefixBelow(a: string, b: string)
    requires StartsWith(b, a)
    ensures Below(a, b)
    decreases |a|
  {
    if a != [] {
      assert b[0] == a[0];
      assert b[1..][..|a| - 1] == a[1..];
      PrefixBelow(a[1..], b[1..]);
    }
  }

  predicate Distinct(s: seq<string>) {
    forall i, j :: 0 <= i < j < |s| ==> s[i] != s[j]
  }

  lemma DistinctSnoc(s: seq<string>, x: string)
    requires Distinct(s) && x !in s
    ensures Distinct(s + [x])
  {
    var r := s + [x];
    forall i, j | 0 <= i < j < |r| ensures r[i] != r[j] {
      if j == |s| { assert r[i] == s[i]; }
    }
  }

  /**
   * In a descending order without repetitions, a path that extends another
   * one (`app.js.map` after `app.js`) comes before it.
   */
  lemma ExtensionsFirst(s: seq<string>, i: nat, j: nat)
    requires Descending(s) && Distinct(s)
    requires i < |s| && j < |s| && i != j
    requires StartsWith(s[j], s[i])
    ensures j < i
  {
    PrefixBelow(s[i], s[j]);
    if i < j {
      BelowAntisymmetric(s[i], s[j]);
    }
  }

  /** A string that occurs at most once in a sequence without repetitions. */
  lemma {:induction false} DistinctCount(s: seq<string>, x: string)
    requires Distinct(s)
    ensures multiset(s)[x] <= 1
    decreases |s|
  {
    if s != [] {
      assert s == [s[0]] + s[1..];
      assert multiset(s) == multiset{s[0]} + multiset(s[1..]);
      DistinctCount(s[1..], x);
      if s[0] == x {
        assert x !in s[1..] by {
          forall k | 0 <= k < |s[1..]| ensures s[1..][k] != x {
            assert s[1..][k] == s[k + 1];
          }
        }
      }
    }
  }

  /** Rearranging a sequence without repetitions gives one without repetitions. */
  lemma DistinctPermutation(a: seq<string>, b: seq<string>)
    requires Distinct(a) && multiset(a) == multiset(b)
    ensures Distinct(b)
  {
    forall i, j | 0 <= i < j < |b| ensures b[i] != b[j] {
      if b[i] == b[j] {
        var x := b[i];
        assert b == b[..j] + b[j..];
        assert multiset(b) == multiset(b[..j]) + multiset(b[j..]);
        assert x in b[..j] && x == b[j..][0];
        assert multiset(b[..j])[x] >= 1 && multiset(b[j..])[x] >= 1;
        DistinctCount(a, x);
        assert false;
      }
    }
  }
}
