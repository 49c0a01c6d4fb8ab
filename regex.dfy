/**
 * The part of JavaScript regular expressions that the rewrite pattern of
 * tasks/cachebust.js:80 uses: `escapeStr`, the meaning of an escaped or
 * unescaped fragment of pattern source, and backtracking matching of a
 * sequence of quantified character atoms.
 */
module Regex {
  import opened Wrappers
  import opened Text

  /** The characters `escapeStr` puts a backslash before: `\ ^ $ * + ? . ( ) | [ ] { }`. */
  predicate IsSpecial(c: char) {
    c in "\\^$*+?.()|[]{}"
  }

  function CountSpecial(s: string): nat {
    if s == [] then 0 else (if IsSpecial(s[0]) then 1 else 0) + CountSpecial(s[1..])
  }

  /** `escapeStr(s)`: every special character is preceded by a backslash, the rest is kept in order. */
  function EscapeStr(s: string): (r: string)
    ensures |r| == |s| + CountSpecial(s)
    ensures r == [] || r[0] == '\\' || !IsSpecial(r[0])
  {
    if s == [] then []
    else (if IsSpecial(s[0]) then ['\\', s[0]] else [s[0]]) + EscapeStr(s[1..])
  }

  /** Text without special characters is its own escape. */
  lemma {:induction false} EscapeStrPlain(s: string)
    requires forall i :: 0 <= i < |s| ==> !IsSpecial(s[i])
    ensures EscapeStr(s) == s
  {
    if s != [] {
      EscapeStrPlain(s[1..]);
      assert s == [s[0]] + s[1..];
    }
  }

  datatype CharClass = Exactly(c: char) | HexDigit

  datatype Quantifier = Once | Optional | Star | Plus

  /** One character class with a greedy quantifier. */
  datatype Atom = Atom(cls: CharClass, q: Quantifier)

  /** `[a-fA-F0-9]+` */
  const HexPlus := Atom(HexDigit, Plus)

  datatype RegexError =
    | NothingToRepeat  // the SyntaxError `new RegExp` throws for a quantifier with nothing before it
    | Unmodelled       // a construct outside the fragments this model gives a meaning to

  /** The atoms that match exactly the characters of `s`. */
  function Lits(s: string): (r: seq<Atom>)
    ensures |r| == |s|
    ensures forall i :: 0 <= i < |s| ==> r[i] == Atom(Exactly(s[i]), Once)
  {
    seq(|s|, i requires 0 <= i < |s| => Atom(Exactly(s[i]), Once))
  }

  lemma LitsCons(s: string)
    requires s != []
    ensures Lits(s) == [Atom(Exactly(s[0]), Once)] + Lits(s[1..])
  {
  }

  lemma LitsAppend(a: string, b: string)
    ensures Lits(a + b) == Lits(a) + Lits(b)
  {
  }

  predicate IsQuantifier(c: char) {
    c == '*' || c == '+' || c == '?'
  }

  function QuantifierOf(c: char): Quantifier
    requires IsQuantifier(c)
  {
    if c == '*' then Star else if c == '+' then Plus else Optional
  }

  function Prepend(a: Atom, r: Result<seq<Atom>, RegexError>): Result<seq<Atom>, RegexError> {
    match r
    case Ok(atoms) => Ok([a] + atoms)
    case Err(e) => Err(e)
  }

  /**
   * The atoms a fragment of pattern source denotes: a plain character or a
   * backslash before a special character is a literal, and a `*`, `+` or `?`
   * after it makes it greedy-repeated. A quantifier with nothing to repeat is
   * a syntax error; anchors, groups, classes, `|`, `.`, braces, lazy
   * quantifiers and other escapes are outside the model.
   */
  function Parse(p: string): Result<seq<Atom>, RegexError>
    decreases |p|
  {
    if p == [] then Ok([])
    else if IsQuantifier(p[0]) then Err(NothingToRepeat)
    else if p[0] == '\\' && !(|p| >= 2 && IsSpecial(p[1])) then Err(Unmodelled)
    else if p[0] != '\\' && IsSpecial(p[0]) then Err(Unmodelled)
    else
      var width := if p[0] == '\\' then 2 else 1;
      var c := p[width - 1];
      var after := p[width..];
      if after != [] && IsQuantifier(after[0]) then
        if |after| >= 2 && after[1] == '?' then Err(Unmodelled)
        else Prepend(Atom(Exactly(c), QuantifierOf(after[0])), Parse(after[1..]))
      else Prepend(Atom(Exactly(c), Once), Parse(after))
  }

  /** Escaping makes any text a pattern that matches exactly that text. */
  lemma {:induction false} EscapeRoundTrip(s: string)
    ensures Parse(EscapeStr(s)) == Ok(Lits(s))
  {
    if s != [] {
      EscapeRoundTrip(s[1..]);
      LitsCons(s);
      var rest := EscapeStr(s[1..]);
      if IsSpecial(s[0]) {
        var p := ['\\', s[0]] + rest;
        assert p[2..] == rest;
      } else {
        var p := [s[0]] + rest;
        assert p[1..] == rest;
      }
    }
  }

  predicate InClass(cls: CharClass, ch: char) {
    match cls
    case Exactly(c) => ch == c
    case HexDigit => IsHexDigit(ch)
  }

  /** How many leading characters of `t` belong to `cls`. */
  function Run(cls: CharClass, t: string): (n: nat)
    ensures n <= |t|
    ensures forall i :: 0 <= i < n ==> InClass(cls, t[i])
    ensures n < |t| ==> !InClass(cls, t[n])
  {
    if t != [] && InClass(cls, t[0]) then 1 + Run(cls, t[1..]) else 0
  }

  function MinReps(q: Quantifier): nat {
    if q == Once || q == Plus then 1 else 0
  }

  function MaxReps(q: Quantifier, available: nat): nat {
    if (q == Once || q == Optional) && available > 1 then 1 else available
  }

  function Shift(r: Option<nat>, k: nat): Option<nat> {
    match r
    case Some(m) => Some(k + m)
    case None => None
  }

  /**
   * The length of the first match of `atoms` at the start of `t`, in the
   * order a backtracking engine tries them: each quantifier first takes as
   * many characters as it may and then gives them back one at a time.
   */
  function MatchLen(atoms: seq<Atom>, t: string): (r: Option<nat>)
    ensures r.Some? ==> r.value <= |t|
    decreases |atoms|, |t| + 1
  {
    if atoms == [] then Some(0)
    else
      var most := MaxReps(atoms[0].q, Run(atoms[0].cls, t));
      if most < MinReps(atoms[0].q) then None else TryReps(atoms, t, most)
  }

  /** Backtracking over the repetitions of the first atom, from `k` down to its minimum. */
  function TryReps(atoms: seq<Atom>, t: string, k: nat): (r: Option<nat>)
    requires atoms != [] && k <= Run(atoms[0].cls, t)
    ensures r.Some? ==> r.value <= |t|
    decreases |atoms|, k
  {
    match MatchLen(atoms[1..], t[k..])
    case Some(m) => Some(k + m)
    case None => if k > MinReps(atoms[0].q) then TryReps(atoms, t, k - 1) else None
  }

  /** One literal atom matches its character and leaves no choice to backtrack into. */
  lemma LitStep(c: char, rest: seq<Atom>, t: string)
    ensures MatchLen([Atom(Exactly(c), Once)] + rest, t)
         == if t != [] && t[0] == c then Shift(MatchLen(rest, t[1..]), 1) else None
  {
    var atoms := [Atom(Exactly(c), Once)] + rest;
    assert atoms[0] == Atom(Exactly(c), Once);
    assert atoms[1..] == rest;
    if t != [] && t[0] == c {
      assert Run(Exactly(c), t) >= 1;
      assert MatchLen(atoms, t) == TryReps(atoms, t, 1);
    }
  }

  lemma ShiftShift(r: Option<nat>, a: nat, b: nat)
    ensures Shift(Shift(r, a), b) == Shift(r, a + b)
  {
  }

  lemma StartsWithCons(t: string, s: string)
    requires s != []
    ensures StartsWith(t, s) == (t != [] && t[0] == s[0] && StartsWith(t[1..], s[1..]))
  {
    if t != [] && |s| <= |t| {
      assert t[..|s|] == [t[0]] + t[1..][..|s| - 1];
      assert s == [s[0]] + s[1..];
    }
  }

  /** Literal atoms match exactly their text and leave no choice to backtrack into. */
  lemma {:induction false} LitsThen(s: string, rest: seq<Atom>, t: string)
    ensures MatchLen(Lits(s) + rest, t)
         == if StartsWith(t, s) then Shift(MatchLen(rest, t[|s|..]), |s|) else None
    decreases |s|
  {
    if s == [] {
      assert Lits(s) + rest == rest;
      assert t[0..] == t;
      assert Shift(MatchLen(rest, t), 0) == MatchLen(rest, t);
    } else {
      LitsCons(s);
      AppendAssoc([Atom(Exactly(s[0]), Once)], Lits(s[1..]), rest);
      LitStep(s[0], Lits(s[1..]) + rest, t);
      StartsWithCons(t, s);
      if t != [] && t[0] == s[0] {
        LitsThen(s[1..], rest, t[1..]);
        if StartsWith(t[1..], s[1..]) {
          assert t[1..][|s| - 1..] == t[|s|..];
          ShiftShift(MatchLen(rest, t[|s|..]), |s| - 1, 1);
        }
      }
    }
  }

  lemma LitsAlone(s: string, t: string)
    ensures MatchLen(Lits(s), t) == if StartsWith(t, s) then Some(|s|) else None
  {
    assert Lits(s) + [] == Lits(s);
    LitsThen(s, [], t);
  }

  /** Inside a run of hexadecimal digits, hexadecimal repetitions shorter than the run fail. */
  lemma {:induction false} HexPlusBacktrack(u: string, t: string, k: nat)
    requires u != [] && !IsHexDigit(u[0])
    requires 1 <= k <= Run(HexDigit, t)
    ensures TryReps([HexPlus] + Lits(u), t, k)
         == if k == Run(HexDigit, t) && StartsWith(t[k..], u) then Some(k + |u|) else None
    decreases k
  {
    var atoms := [HexPlus] + Lits(u);
    assert atoms[1..] == Lits(u);
    LitsAlone(u, t[k..]);
    if k < Run(HexDigit, t) {
      assert IsHexDigit(t[k]);
      assert !StartsWith(t[k..], u) by {
        if |u| <= |t[k..]| { assert t[k..][..|u|][0] == t[k]; }
      }
    }
    if k > 1 {
      HexPlusBacktrack(u, t, k - 1);
    }
  }

  /** `[a-fA-F0-9]+` followed by a literal that starts with a non-digit takes the whole run of digits. */
  lemma HexPlusThenLits(u: string, t: string)
    requires u != [] && !IsHexDigit(u[0])
    ensures MatchLen([HexPlus] + Lits(u), t)
         == var n := Run(HexDigit, t);
            if n >= 1 && StartsWith(t[n..], u) then Some(n + |u|) else None
  {
    var n := Run(HexDigit, t);
    if n >= 1 {
      HexPlusBacktrack(u, t, n);
    }
  }

  /** `[a-fA-F0-9]+` on its own takes the whole run of digits. */
  lemma HexPlusAlone(t: string)
    ensures MatchLen([HexPlus], t) == if Run(HexDigit, t) >= 1 then Some(Run(HexDigit, t)) else None
  {
    var n := Run(HexDigit, t);
    assert [HexPlus][1..] == [];
    if n >= 1 {
      assert TryReps([HexPlus], t, n) == Some(n);
    }
  }
  /** `rest` matches after none of the first `n - 1` repetitions of a digit, that is at none of `t[1..]`, …, `t[n - 1..]`. */
  predicate NoneBelow(rest: seq<Atom>, t: string, n: nat)
    decreases n
  {
    n <= 1 || (n <= |t| && MatchLen(rest, t[n - 1..]).None? && NoneBelow(rest, t, n - 1))
  }

  /** Repetitions of a digit after which `rest` cannot match all fail. */
  lemma {:induction false} HexPlusFailsBelow(rest: seq<Atom>, t: string, k: nat)
    requires 1 <= k <= Run(HexDigit, t)
    requires NoneBelow(rest, t, k + 1)
    ensures TryReps([HexPlus] + rest, t, k) == None
    decreases k
  {
    var atoms := [HexPlus] + rest;
    assert atoms[0] == HexPlus && atoms[1..] == rest;
    if k > 1 {
      HexPlusFailsBelow(rest, t, k - 1);
    }
  }

  /**
   * Backtracking over hexadecimal digits ends at the longest run when what
   * follows cannot match after any shorter one.
   */
  lemma HexPlusThen(rest: seq<Atom>, t: string)
    requires NoneBelow(rest, t, Run(HexDigit, t))
    ensures MatchLen([HexPlus] + rest, t)
         == var n := Run(HexDigit, t);
            if n >= 1 then Shift(MatchLen(rest, t[n..]), n) else None
  {
    var n := Run(HexDigit, t);
    if n > 1 {
      HexPlusFailsBelow(rest, t, n - 1);
    }
    if n >= 1 {
      HexPlusAtRun(rest, t);
    }
  }

  /** Taking the whole run of digits is tried first; shorter runs are tried only when it fails. */
  lemma HexPlusAtRun(rest: seq<Atom>, t: string)
    requires Run(HexDigit, t) >= 1
    requires Run(HexDigit, t) == 1 || TryReps([HexPlus] + rest, t, Run(HexDigit, t) - 1) == None
    ensures MatchLen([HexPlus] + rest, t) == Shift(MatchLen(rest, t[Run(HexDigit, t)..]), Run(HexDigit, t))
  {
    var n := Run(HexDigit, t);
    var atoms := [HexPlus] + rest;
    assert atoms[0] == HexPlus && atoms[1..] == rest;
    assert MatchLen(atoms, t) == TryReps(atoms, t, n);
  }

  /** A literal character under `+` on its own takes its whole run. */
  lemma PlusAlone(c: char, t: string)
    ensures MatchLen([Atom(Exactly(c), Plus)], t)
         == if Run(Exactly(c), t) >= 1 then Some(Run(Exactly(c), t)) else None
  {
    var n := Run(Exactly(c), t);
    assert [Atom(Exactly(c), Plus)][1..] == [];
    if n >= 1 {
      assert TryReps([Atom(Exactly(c), Plus)], t, n) == Some(n);
    }
  }

  /** Source `\\.` followed by no quantifier is a literal dot. */
  lemma ParseEscapedDot(rest: string)
    requires rest == [] || !IsQuantifier(rest[0])
    ensures Parse("\\." + rest) == Prepend(Atom(Exactly('.'), Once), Parse(rest))
  {
    var p := "\\." + rest;
    assert p[0] == '\\' && p[1] == '.';
    assert p[2..] == rest;
  }

  /** `c+` is one or more of `c`. */
  lemma ParsePlus(c: char)
    requires !IsSpecial(c)
    ensures Parse([c, '+']) == Ok([Atom(Exactly(c), Plus)])
  {
    var p := [c, '+'];
    assert p[1..] == ['+'];
    assert p[1..][1..] == [];
    assert [Atom(Exactly(c), Plus)] + [] == [Atom(Exactly(c), Plus)];
  }

  /** `c++`: the second `+` has nothing to repeat. */
  lemma ParseDoublePlus(c: char)
    requires !IsSpecial(c)
    ensures Parse([c, '+', '+']) == Err(NothingToRepeat)
  {
    var p := [c, '+', '+'];
    assert p[1..][1..] == ['+'];
  }
}
