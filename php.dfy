/**
 * The small part of PHP's runtime semantics the repository code relies on:
 * dynamically typed values and their truthiness, the null-coalescing
 * operator, `str_replace`, and the two kinds of throwables.
 */
module Php {
  import opened Wrappers

  /** A PHP scalar value as it appears in a filter array or a record. */
  datatype Value = Null | Bool(b: bool) | Int(i: int) | Str(s: string)

  /** PHP's cast of a string to bool: only "" and "0" are false. */
  predicate TruthyString(s: string)
  {
    s != "" && s != "0"
  }

  /** PHP's cast of a value to bool, as used by `if ($x)`. */
  predicate Truthy(v: Value)
  {
    match v
    case Null => false
    case Bool(b) => b
    case Int(i) => i != 0
    case Str(s) => TruthyString(s)
  }

  /** The null-coalescing operator `$x ?? $default`. */
  function Coalesce<T>(x: Option<T>, default: T): (r: T)
    ensures x.Some? ==> r == x.value
    ensures x.None? ==> r == default
  {
    match x
    case Some(v) => v
    case None => default
  }

  /**
   * A throwable. `\Exception` subclasses are caught by `catch (\Exception $e)`;
   * engine errors (`\Error`, such as calling null) are not.
   */
  datatype Throwable = Exception(message: string) | Error(message: string)

  /** What a call to a user-supplied callable does: return a value or throw. */
  datatype Call<+T> = Returned(value: T) | Threw(thrown: Throwable)

  /** `p` occurs in `s` starting at index `i`. */
  predicate OccursAt(s: string, p: string, i: nat)
  {
    i + |p| <= |s| && s[i..i + |p|] == p
  }

  /** `p` occurs somewhere in `s`. */
  predicate Occurs(s: string, p: string)
  {
    exists i: nat | i <= |s| :: OccursAt(s, p, i)
  }

  /**
   * PHP's `str_replace($search, $replace, $subject)` for one search string:
   * scans left to right and replaces every non-overlapping occurrence;
   * text produced by a replacement is not scanned again. An empty search
   * string leaves the subject unchanged.
   */
  function StrReplace(s: string, search: string, replace: string): string
    decreases |s|
  {
    if search == [] || |s| < |search| then s
    else if s[..|search|] == search then replace + StrReplace(s[|search|..], search, replace)
    else [s[0]] + StrReplace(s[1..], search, replace)
  }

  /** The number of occurrences `StrReplace` replaces. */
  function Occurrences(s: string, p: string): nat
    decreases |s|
  {
    if p == [] || |s| < |p| then 0
    else if s[..|p|] == p then 1 + Occurrences(s[|p|..], p)
    else Occurrences(s[1..], p)
  }

  /** A subject without the search string comes back unchanged. */
  lemma {:induction false} NoOccurrenceUnchanged(s: string, p: string, r: string)
    requires p != []
    requires !Occurs(s, p)
    ensures StrReplace(s, p, r) == s
    ensures Occurrences(s, p) == 0
    decreases |s|
  {
    if |s| >= |p| {
      assert !OccursAt(s, p, 0);
      assert !Occurs(s[1..], p) by {
        forall i: nat | OccursAt(s[1..], p, i)
          ensures false
        {
          assert s[1..][i..i + |p|] == s[i + 1..i + 1 + |p|];
          assert OccursAt(s, p, i + 1);
        }
      }
      NoOccurrenceUnchanged(s[1..], p, r);
    }
  }

  /** Multiplication distributes over `k + 1`. */
  lemma Distribute(k: int, d: int)
    ensures (k + 1) * d == k * d + d
  {
  }

  /** Every replacement changes the length by the same amount. */
  lemma {:induction false} ReplaceLength(s: string, p: string, r: string)
    ensures |StrReplace(s, p, r)| == |s| + Occurrences(s, p) * (|r| - |p|)
    decreases |s|
  {
    var d := |r| - |p|;
    if p == [] || |s| < |p| {
      assert Occurrences(s, p) == 0;
    } else if s[..|p|] == p {
      var rest := s[|p|..];
      var k := Occurrences(rest, p);
      ReplaceLength(rest, p, r);
      assert |StrReplace(rest, p, r)| == |rest| + k * d;
      assert Occurrences(s, p) == k + 1;
      Distribute(k, d);
    } else {
      ReplaceLength(s[1..], p, r);
      assert Occurrences(s, p) == Occurrences(s[1..], p);
    }
  }

  /**
   * When the first character of `p` does not recur inside `p`, no occurrence
   * can start in `e` and end in a trailing copy of `p`, so a trailing `p`
   * after `p`-free text is exactly what gets replaced.
   */
  lemma {:induction false} ReplaceTrailing(e: string, p: string, r: string)
    requires p != [] && p[0] !in p[1..]
    requires !Occurs(e, p)
    ensures StrReplace(e + p, p, r) == e + r
    decreases |e|
  {
    var s := e + p;
    if e == [] {
      assert s == p;
      assert s[|p|..] == [];
    } else {
      assert s[..|p|] != p by {
        if |e| >= |p| {
          assert s[..|p|] == e[..|p|];
          assert !OccursAt(e, p, 0);
        } else {
          assert p[1..][|e| - 1] == p[|e|];
          assert s[..|p|][|e|] == p[0] != p[|e|];
        }
      }
      assert !Occurs(e[1..], p) by {
        forall i: nat | OccursAt(e[1..], p, i)
          ensures false
        {
          assert e[1..][i..i + |p|] == e[i + 1..i + 1 + |p|];
          assert OccursAt(e, p, i + 1);
        }
      }
      assert s[1..] == e[1..] + p;
      ReplaceTrailing(e[1..], p, r);
      assert [e[0]] + (e[1..] + r) == e + r;
    }
  }

  /** A leading `p` followed by `p`-free text: only the leading one is replaced. */
  lemma ReplaceLeadingMatch(p: string, tail: string, r: string)
    requires p != [] && !Occurs(tail, p)
    ensures StrReplace(p + tail, p, r) == r + tail
  {
    var s := p + tail;
    assert s[..|p|] == p && s[|p|..] == tail;
    NoOccurrenceUnchanged(tail, p, r);
  }

  /** A subject that is exactly the search string becomes the replacement. */
  lemma ReplaceWhole(p: string, r: string)
    requires p != []
    ensures StrReplace(p, p, r) == r
  {
  }

  /** One step of `StrReplace` where the subject does not start with a match. */
  lemma ReplaceStepSkip(s: string, p: string, r: string)
    requires p != [] && s != [] && (|s| < |p| || s[..|p|] != p)
    ensures StrReplace(s, p, r) == [s[0]] + StrReplace(s[1..], p, r)
  {
  }

  /** A subject without the first character of `p` has no occurrence of `p`. */
  lemma MissingFirstCharacter(s: string, p: string)
    requires p != [] && p[0] !in s
    ensures !Occurs(s, p)
  {
    forall i: nat | OccursAt(s, p, i)
      ensures false
    {
    }
  }

  /** Text without the first character of `p` passes through `StrReplace` untouched. */
  lemma {:induction false} ReplaceAfterPlainPrefix(x: string, s: string, p: string, r: string)
    requires p != [] && p[0] !in x
    ensures StrReplace(x + s, p, r) == x + StrReplace(s, p, r)
    decreases |x|
  {
    if x == [] {
      assert x + s == s;
    } else {
      var xs := x + s;
      assert xs[0] == x[0] != p[0];
      if |xs| >= |p| {
        assert xs[..|p|][0] != p[0];
      }
      ReplaceStepSkip(xs, p, r);
      assert xs[1..] == x[1..] + s;
      ReplaceAfterPlainPrefix(x[1..], s, p, r);
    }
  }

  /**
   * No proper suffix of `p` is also a prefix of it, so two occurrences of
   * `p` can never overlap.
   */
  predicate BorderFree(p: string)
  {
    forall k :: 0 < k < |p| ==> p[k..] != p[..|p| - k]
  }

  /** A subject shorter than a border-free `p` cannot run into a following `p`. */
  lemma NoMatchAcross(x: string, p: string, y: string)
    requires 0 < |x| < |p| && BorderFree(p)
    ensures (x + p + y)[..|p|] != p
  {
    var s, k := x + p + y, |x|;
    assert p[k..] != p[..|p| - k];
    var j :| 0 <= j < |p| - k && p[k..][j] != p[..|p| - k][j];
    assert s[..|p|][k + j] == s[k + j] == p[j] != p[k + j];
  }

  /**
   * An occurrence of a border-free `p` splits the subject: the text before it
   * and the text after it are replaced on their own.
   */
  lemma {:induction false} ReplaceAround(x: string, p: string, y: string, r: string)
    requires p != [] && BorderFree(p)
    ensures StrReplace(x + p + y, p, r) == StrReplace(x, p, r) + r + StrReplace(y, p, r)
    decreases |x|
  {
    if x == [] {
      assert x + p + y == p + y;
      ReplaceLeadingStep(p, y, r);
    } else if |x| >= |p| && x[..|p|] == p {
      var x' := x[|p|..];
      ReplaceAround(x', p, y, r);
      AroundLeadingMatch(x', p, y, r);
      assert x == p + x';
    } else {
      ReplaceAround(x[1..], p, y, r);
      AroundLeadingSkip(x, p, y, r);
    }
  }

  /** The inductive step of `ReplaceAround` when `x` starts with a match. */
  lemma AroundLeadingMatch(x': string, p: string, y: string, r: string)
    requires p != []
    requires StrReplace(x' + p + y, p, r) == StrReplace(x', p, r) + r + StrReplace(y, p, r)
    ensures StrReplace(p + x' + p + y, p, r) == StrReplace(p + x', p, r) + r + StrReplace(y, p, r)
  {
    var u := x' + p + y;
    assert p + x' + p + y == p + u;
    ReplaceLeadingStep(p, u, r);
    ReplaceLeadingStep(p, x', r);
    var a, b := StrReplace(x', p, r), StrReplace(y, p, r);
    assert r + (a + r + b) == (r + a) + r + b;
  }

  /** The inductive step of `ReplaceAround` when `x` does not start with a match. */
  lemma AroundLeadingSkip(x: string, p: string, y: string, r: string)
    requires p != [] && BorderFree(p) && x != [] && (|x| < |p| || x[..|p|] != p)
    requires StrReplace(x[1..] + p + y, p, r) == StrReplace(x[1..], p, r) + r + StrReplace(y, p, r)
    ensures StrReplace(x + p + y, p, r) == StrReplace(x, p, r) + r + StrReplace(y, p, r)
  {
    var t := p + y;
    var s := x + t;
    assert x + p + y == s;
    assert x[1..] + p + y == x[1..] + t;
    NoMatchAtStart(x, p, y);
    ReplaceStepSkip(s, p, r);
    ReplaceStepSkip(x, p, r);
    DropFirst(x, t);
  }

  /** A subject that does not start with a match does not start with one when followed by `p`. */
  lemma NoMatchAtStart(x: string, p: string, y: string)
    requires p != [] && BorderFree(p) && x != [] && (|x| < |p| || x[..|p|] != p)
    ensures (x + (p + y))[..|p|] != p
  {
    assert x + (p + y) == x + p + y;
    if |x| >= |p| {
      assert (x + (p + y))[..|p|] == x[..|p|];
    } else {
      NoMatchAcross(x, p, y);
    }
  }

  lemma DropFirst(x: string, t: string)
    requires x != []
    ensures (x + t)[1..] == x[1..] + t
  {
  }

  /** A subject that starts with the search string: replace it, then go on after it. */
  lemma ReplaceLeadingStep(p: string, tail: string, r: string)
    requires p != []
    ensures StrReplace(p + tail, p, r) == r + StrReplace(tail, p, r)
  {
    var s := p + tail;
    assert s[..|p|] == p && s[|p|..] == tail;
  }

  /** The pieces `segs` with `sep` between each two neighbours. */
  function Join(segs: seq<string>, sep: string): string
    decreases |segs|
  {
    if |segs| == 0 then []
    else if |segs| == 1 then segs[0]
    else segs[0] + sep + Join(segs[1..], sep)
  }

  /**
   * Every occurrence of a border-free search string is replaced: a subject
   * made of `p`-free segments joined by `p` comes back joined by `r`.
   */
  lemma {:induction false} ReplaceJoin(segs: seq<string>, p: string, r: string)
    requires p != [] && BorderFree(p)
    requires forall i :: 0 <= i < |segs| ==> !Occurs(segs[i], p)
    ensures StrReplace(Join(segs, p), p, r) == Join(segs, r)
    decreases |segs|
  {
    if |segs| == 1 {
      NoOccurrenceUnchanged(segs[0], p, r);
    } else if |segs| > 1 {
      NoOccurrenceUnchanged(segs[0], p, r);
      ReplaceAround(segs[0], p, Join(segs[1..], p), r);
      ReplaceJoin(segs[1..], p, r);
    }
  }

  /** The pieces `segs` run together. */
  function Concat(segs: seq<string>): string
    decreases |segs|
  {
    if segs == [] then [] else segs[0] + Concat(segs[1..])
  }

  /** Joining by the empty string runs the pieces together. */
  lemma {:induction false} JoinEmpty(segs: seq<string>)
    ensures Join(segs, "") == Concat(segs)
    decreases |segs|
  {
    if |segs| == 1 {
      assert segs[1..] == [];
      assert segs[0] + [] == segs[0];
    } else if |segs| > 1 {
      JoinEmpty(segs[1..]);
      assert segs[0] + "" == segs[0];
    }
  }
}
