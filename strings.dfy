/**
 * String helpers shared by the renderers and the page logic: JavaScript's
 * `String.prototype.replace` with a global literal pattern, `map(...).join('')`,
 * occurrence counting, and the decimal text of a non-negative number.
 */
module Strings {

  datatype Option<T> = None | Some(value: T)
  {
    /** The value, or `default` when it is missing (a JavaScript default parameter). */
    function GetOr(default: T): T
    {
      match this
      case Some(v) => v
      case None => default
    }
  }

  /** `s.replace(/pat/g, rep)` for a pattern that is a literal string: the scan
      goes left to right, and a match consumes the matched characters, so
      matches never overlap. */
  function ReplaceAll(s: string, pat: string, rep: string): string
    requires |pat| > 0
    decreases |s|
  {
    if |s| == 0 then []
    else if |pat| <= |s| && s[..|pat|] == pat then rep + ReplaceAll(s[|pat|..], pat, rep)
    else [s[0]] + ReplaceAll(s[1..], pat, rep)
  }

  /** One step of a single-character replacement. */
  lemma ReplaceCharCons(c: char, s: string, pat: string, rep: string)
    requires |pat| == 1
    ensures ReplaceAll([c] + s, pat, rep)
         == (if c == pat[0] then rep else [c]) + ReplaceAll(s, pat, rep)
  {
    var t := [c] + s;
    assert t[..1] == [c];
    assert t[1..] == s;
    assert [c] == pat <==> c == pat[0];
  }

  /** The same step, read off a non-empty string. */
  lemma ReplaceCharHead(s: string, pat: string, rep: string)
    requires |pat| == 1 && |s| > 0
    ensures ReplaceAll(s, pat, rep)
         == (if s[0] == pat[0] then rep else [s[0]]) + ReplaceAll(s[1..], pat, rep)
  {
    assert s[..1] == [s[0]];
    assert [s[0]] == pat <==> s[0] == pat[0];
  }

  /** A single-character replacement processes the two halves of a string independently. */
  lemma {:induction false} ReplaceCharAppend(x: string, y: string, pat: string, rep: string)
    requires |pat| == 1
    ensures ReplaceAll(x + y, pat, rep) == ReplaceAll(x, pat, rep) + ReplaceAll(y, pat, rep)
  {
    if x == [] {
      assert x + y == y;
    } else {
      var xy := x + y;
      assert xy[0] == x[0];
      assert xy[1..] == x[1..] + y;
      ReplaceCharHead(xy, pat, rep);
      ReplaceCharHead(x, pat, rep);
      ReplaceCharAppend(x[1..], y, pat, rep);
      var tok := if x[0] == pat[0] then rep else [x[0]];
      assert tok + (ReplaceAll(x[1..], pat, rep) + ReplaceAll(y, pat, rep))
          == (tok + ReplaceAll(x[1..], pat, rep)) + ReplaceAll(y, pat, rep);
    }
  }

  /** One step of a two-character replacement. */
  lemma ReplacePairStep(t: string, pat: string, rep: string)
    requires |pat| == 2 && |t| > 0
    ensures ReplaceAll(t, pat, rep)
         == if |t| >= 2 && t[0] == pat[0] && t[1] == pat[1]
            then rep + ReplaceAll(t[2..], pat, rep)
            else [t[0]] + ReplaceAll(t[1..], pat, rep)
  {
    if |t| >= 2 {
      assert t[..2] == [t[0], t[1]];
      assert pat == [pat[0], pat[1]];
    }
  }

  /** Number of occurrences of character `c` in `s`. */
  function CountChar(s: string, c: char): nat
  {
    if s == [] then 0 else (if s[0] == c then 1 else 0) + CountChar(s[1..], c)
  }

  lemma CountCharCons(d: char, s: string, c: char)
    ensures CountChar([d] + s, c) == (if d == c then 1 else 0) + CountChar(s, c)
  {
    assert ([d] + s)[1..] == s;
  }

  lemma {:induction false} CountCharAppend(x: string, y: string, c: char)
    ensures CountChar(x + y, c) == CountChar(x, c) + CountChar(y, c)
  {
    if x == [] {
      assert x + y == y;
    } else {
      assert (x + y)[1..] == x[1..] + y;
      CountCharAppend(x[1..], y, c);
    }
  }

  /** Number of positions `i` with `s[i] == a` and `s[i + 1] == b`. */
  function CountPair(s: string, a: char, b: char): nat
  {
    if |s| < 2 then 0
    else (if s[0] == a && s[1] == b then 1 else 0) + CountPair(s[1..], a, b)
  }

  lemma CountPairCons(d: char, s: string, a: char, b: char)
    ensures CountPair([d] + s, a, b)
         == (if d == a && |s| > 0 && s[0] == b then 1 else 0) + CountPair(s, a, b)
  {
    assert ([d] + s)[1..] == s;
  }

  /** `s` holds `a` immediately followed by `b` somewhere. */
  predicate HasPair(s: string, a: char, b: char)
  {
    exists i :: 0 <= i < |s| - 1 && s[i] == a && s[i + 1] == b
  }

  lemma {:induction false} CountPairPositive(s: string, a: char, b: char)
    ensures CountPair(s, a, b) > 0 <==> HasPair(s, a, b)
  {
    if |s| >= 2 {
      CountPairPositive(s[1..], a, b);
      if HasPair(s[1..], a, b) {
        var i :| 0 <= i < |s[1..]| - 1 && s[1..][i] == a && s[1..][i + 1] == b;
        assert s[i + 1] == a && s[i + 2] == b;
      }
      if HasPair(s, a, b) && !(s[0] == a && s[1] == b) {
        var i :| 0 <= i < |s| - 1 && s[i] == a && s[i + 1] == b;
        assert i > 0;
        assert s[1..][i - 1] == a && s[1..][i] == b;
      }
    }
  }

  /** `sub` occurs in `s` starting at offset `i`. */
  predicate OccursAt(s: string, sub: string, i: nat)
  {
    i + |sub| <= |s| && s[i..i + |sub|] == sub
  }

  /** `sub` occurs somewhere in `s`. */
  predicate Contains(s: string, sub: string)
  {
    exists i: nat | i <= |s| :: OccursAt(s, sub, i)
  }

  lemma ContainsInfix(a: string, m: string, b: string)
    ensures OccursAt(a + m + b, m, |a|)
    ensures Contains(a + m + b, m)
  {
    assert (a + m + b)[|a|..|a| + |m|] == m;
    assert OccursAt(a + m + b, m, |a|);
  }

  /** A template literal: its literal pieces and interpolated values, in order. */
  function Join(pieces: seq<string>): string
  {
    if pieces == [] then "" else pieces[0] + Join(pieces[1..])
  }

  lemma {:induction false} JoinAppend(xs: seq<string>, ys: seq<string>)
    ensures Join(xs + ys) == Join(xs) + Join(ys)
  {
    if xs == [] {
      assert xs + ys == ys;
    } else {
      assert (xs + ys)[0] == xs[0];
      assert (xs + ys)[1..] == xs[1..] + ys;
      JoinAppend(xs[1..], ys);
    }
  }

  /** Piece `k` of a template sits right after the pieces before it. */
  lemma JoinAt(pieces: seq<string>, k: nat)
    requires k < |pieces|
    ensures OccursAt(Join(pieces), pieces[k], |Join(pieces[..k])|)
    ensures Contains(Join(pieces), pieces[k])
  {
    assert pieces == pieces[..k] + [pieces[k]] + pieces[k + 1..];
    JoinAppend(pieces[..k] + [pieces[k]], pieces[k + 1..]);
    JoinAppend(pieces[..k], [pieces[k]]);
    assert Join([pieces[k]]) == pieces[k] + Join([]);
    ContainsInfix(Join(pieces[..k]), pieces[k], Join(pieces[k + 1..]));
  }

  /** `xs.map(f).join('')`: the fragments of the elements, in order, with nothing between them. */
  function ConcatMap<T>(f: T -> string, xs: seq<T>): string
  {
    if xs == [] then "" else f(xs[0]) + ConcatMap(f, xs[1..])
  }

  lemma {:induction false} ConcatMapAppend<T>(f: T -> string, xs: seq<T>, ys: seq<T>)
    ensures ConcatMap(f, xs + ys) == ConcatMap(f, xs) + ConcatMap(f, ys)
  {
    if xs == [] {
      assert xs + ys == ys;
    } else {
      assert (xs + ys)[0] == xs[0];
      assert (xs + ys)[1..] == xs[1..] + ys;
      ConcatMapAppend(f, xs[1..], ys);
    }
  }

  /** The fragment of element `k` sits right after the fragments of the elements before it. */
  lemma ConcatMapAt<T>(f: T -> string, xs: seq<T>, k: nat)
    requires k < |xs|
    ensures OccursAt(ConcatMap(f, xs), f(xs[k]), |ConcatMap(f, xs[..k])|)
  {
    assert xs == xs[..k] + [xs[k]] + xs[k + 1..];
    ConcatMapAppend(f, xs[..k] + [xs[k]], xs[k + 1..]);
    ConcatMapAppend(f, xs[..k], [xs[k]]);
    assert ConcatMap(f, [xs[k]]) == f(xs[k]) + ConcatMap(f, []);
    ContainsInfix(ConcatMap(f, xs[..k]), f(xs[k]), ConcatMap(f, xs[k + 1..]));
  }

  /** When every fragment of `g` is that of `f` plus `extra` characters, the joined
      strings differ in length by `extra` per element. */
  lemma {:induction false} ConcatMapLength<T>(f: T -> string, g: T -> string, xs: seq<T>, extra: nat)
    requires forall i :: 0 <= i < |xs| ==> |g(xs[i])| == |f(xs[i])| + extra
    ensures |ConcatMap(g, xs)| == |ConcatMap(f, xs)| + |xs| * extra
  {
    if xs != [] {
      var rest := xs[1..];
      assert forall i :: 0 <= i < |rest| ==> rest[i] == xs[i + 1];
      ConcatMapLength(f, g, rest, extra);
      assert |ConcatMap(g, xs)| == |g(xs[0])| + |ConcatMap(g, rest)|;
      assert |ConcatMap(f, xs)| == |f(xs[0])| + |ConcatMap(f, rest)|;
      assert |xs| * extra == |rest| * extra + extra by {
        assert |xs| == |rest| + 1;
      }
    }
  }

  predicate IsDigit(c: char) { '0' <= c <= '9' }

  predicate IsDigits(s: string) { forall i :: 0 <= i < |s| ==> IsDigit(s[i]) }

  function DigitChar(d: nat): (c: char)
    requires d < 10
    ensures IsDigit(c) && c as int - '0' as int == d
  {
    (('0' as int) + d) as char
  }

  /** The text JavaScript gives a non-negative integer in `${n}`: decimal, no leading zero. */
  function Decimal(n: nat): (r: string)
    ensures |r| > 0 && IsDigits(r)
    ensures r[0] == '0' ==> n == 0
    decreases n
  {
    if n < 10 then [DigitChar(n)] else Decimal(n / 10) + [DigitChar(n % 10)]
  }

  /** The number a string of decimal digits denotes. */
  function DecimalValue(s: string): nat
    requires IsDigits(s)
  {
    if s == [] then 0 else 10 * DecimalValue(s[..|s| - 1]) + (s[|s| - 1] as int - '0' as int)
  }

  lemma {:induction false} DecimalRoundTrip(n: nat)
    ensures DecimalValue(Decimal(n)) == n
    decreases n
  {
    if n >= 10 {
      var r := Decimal(n);
      assert r[..|r| - 1] == Decimal(n / 10);
      DecimalRoundTrip(n / 10);
    }
  }
}
