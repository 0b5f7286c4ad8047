/**
 * Path keys of a flat metadata record.
 *
 * A record encodes a tree in its string keys: `/` separates segments,
 * `<key>.N` is the N-th instance of a repeated element and `<key>.count` its
 * cardinality.  This module holds the string operations the projection engine
 * uses to build keys, and the facts about prefixes that tell which keys a
 * projection can reach.
 */
module Paths {

  /** `p` is a string prefix of `k`. */
  predicate HasPrefix(k: string, p: string) {
    |p| <= |k| && k[..|p|] == p
  }

  /** Neither string is a prefix of the other, so no key extends both. */
  predicate Incomparable(a: string, b: string) {
    !HasPrefix(a, b) && !HasPrefix(b, a)
  }

  /** `a` and `b` differ at position `i`: a cheap witness of incomparability. */
  predicate ApartAt(a: string, b: string, i: nat) {
    i < |a| && i < |b| && a[i] != b[i]
  }

  /** `k` is the node `d` itself or a key below it (after a `/` or a `.`). */
  predicate Below(d: string, k: string) {
    k == d || HasPrefix(k, d + "/") || HasPrefix(k, d + ".")
  }

  predicate IsDigit(c: char) {
    '0' <= c <= '9'
  }

  function DigitChar(n: nat): (c: char)
    requires n < 10
    ensures IsDigit(c)
  {
    "0123456789"[n]
  }

  /** Decimal rendering of a natural number, as Python's `'%d'` does it. */
  function NatToString(n: nat): (r: string)
    ensures |r| > 0
    ensures forall i | 0 <= i < |r| :: IsDigit(r[i])
    ensures n < 10 <==> |r| == 1
  {
    if n < 10 then [DigitChar(n)] else NatToString(n / 10) + [DigitChar(n % 10)]
  }

  /** The key of the i-th instance of `p`: Python's `'%s.%d' % (p, i)`. */
  function Indexed(p: string, i: nat): string {
    p + "." + NatToString(i)
  }

  /** The key holding the cardinality of the repeated element `p`. */
  function CountKey(p: string): string {
    p + ".count"
  }

  predicate IsCountKey(k: string) {
    |k| >= 6 && k[|k| - 6..] == ".count"
  }

  // ---------------------------------------------------------------------------
  // Prefix facts.  Most are stated as implications so that callers can use them
  // without first assuming the case they want to rule out.

  lemma PrefixOfConcat(a: string, b: string)
    ensures HasPrefix(a + b, a)
  {
    assert (a + b)[..|a|] == a;
  }

  lemma PrefixTransitive(k: string, q: string, p: string)
    ensures HasPrefix(k, q) && HasPrefix(q, p) ==> HasPrefix(k, p)
  {
    if |p| <= |q| <= |k| {
      assert k[..|p|] == k[..|q|][..|p|];
    }
  }

  /** Two prefixes of one key are comparable. */
  lemma CommonExtension(k: string, a: string, b: string)
    ensures HasPrefix(k, a) && HasPrefix(k, b) ==> !Incomparable(a, b)
  {
    if |a| <= |b| <= |k| {
      assert k[..|b|][..|a|] == k[..|a|];
      assert HasPrefix(k, b) ==> b[..|a|] == k[..|a|];
    } else if |b| <= |a| <= |k| {
      assert k[..|a|][..|b|] == k[..|b|];
      assert HasPrefix(k, a) ==> a[..|b|] == k[..|b|];
    }
  }

  lemma ApartIncomparable(a: string, b: string, i: nat)
    requires ApartAt(a, b, i)
    ensures Incomparable(a, b)
  {
    if |b| <= |a| { assert a[..|b|][i] == a[i] != b[i]; }
    if |a| <= |b| { assert b[..|a|][i] == b[i] != a[i]; }
  }

  /** A prefix fixes the characters of the key it is a prefix of. */
  lemma PrefixCharAt(k: string, p: string, i: nat)
    requires i < |p|
    ensures HasPrefix(k, p) ==> k[i] == p[i]
  {
    if |p| <= |k| { assert k[..|p|][i] == k[i]; }
  }

  /** Extending two incomparable strings keeps them incomparable. */
  lemma IncomparableExtend(s: string, d: string, s': string, d': string)
    requires Incomparable(s, d)
    requires HasPrefix(s', s) && HasPrefix(d', d)
    ensures Incomparable(s', d')
  {
    PrefixTransitive(s', d', d);
    CommonExtension(s', s, d);
    PrefixTransitive(d', s', s);
    CommonExtension(d', s, d);
  }

  lemma BelowHasPrefix(d: string, k: string)
    ensures Below(d, k) ==> HasPrefix(k, d)
  {
    PrefixOfConcat(d, "/");
    PrefixTransitive(k, d + "/", d);
    PrefixOfConcat(d, ".");
    PrefixTransitive(k, d + ".", d);
  }

  /** A key below `d` cannot extend a string incomparable with `d`. */
  lemma BelowNotUnder(s: string, d: string, k: string)
    requires Incomparable(s, d)
    ensures Below(d, k) ==> !HasPrefix(k, s)
  {
    BelowHasPrefix(d, k);
    CommonExtension(k, s, d);
  }

  /** Nothing strictly longer than `k` has `k` below it. */
  lemma ShorterNotBelow(d: string, k: string)
    requires |k| < |d|
    ensures !Below(d, k)
  {
    BelowHasPrefix(d, k);
  }

  /** Below a child `d + x`, where `x` starts a new segment or instance, is below `d`. */
  lemma BelowChild(d: string, x: string, k: string)
    requires |x| > 0 && (x[0] == '/' || x[0] == '.')
    ensures Below(d + x, k) ==> Below(d, k)
  {
    BelowHasPrefix(d + x, k);
    var c := [x[0]];
    assert (d + x)[..|d| + 1] == d + c;
    assert HasPrefix(d + x, d + c);
    PrefixTransitive(k, d + x, d + c);
    assert c == "/" || c == ".";
  }

  /** An instance key and everything below it lies under `d + "."`. */
  lemma BelowIndexed(d: string, i: nat, k: string)
    ensures Below(Indexed(d, i), k) ==> HasPrefix(k, d + ".") && Below(d, k)
  {
    BelowHasPrefix(Indexed(d, i), k);
    PrefixOfConcat(d + ".", NatToString(i));
    PrefixTransitive(k, Indexed(d, i), d + ".");
  }

  /** Two named children whose names differ at a position have disjoint subtrees. */
  lemma SiblingsApart(d: string, x: string, y: string, i: nat, k: string)
    requires ApartAt(x, y, i)
    ensures !(Below(d + x, k) && Below(d + y, k))
  {
    assert (d + x)[|d| + i] == x[i] && (d + y)[|d| + i] == y[i];
    ApartIncomparable(d + x, d + y, |d| + i);
    BelowHasPrefix(d + x, k);
    BelowHasPrefix(d + y, k);
    CommonExtension(k, d + x, d + y);
  }

  // ---------------------------------------------------------------------------
  // Decimal indices

  lemma DigitCharInjective(a: nat, b: nat)
    requires a < 10 && b < 10 && DigitChar(a) == DigitChar(b)
    ensures a == b
  {
  }

  lemma {:induction false} NatToStringInjective(i: nat, j: nat)
    requires NatToString(i) == NatToString(j)
    ensures i == j
  {
    var a, b := NatToString(i), NatToString(j);
    if i < 10 && j < 10 {
      DigitCharInjective(i, j);
    } else if i >= 10 && j >= 10 {
      assert a[|a| - 1] == DigitChar(i % 10) && b[|b| - 1] == DigitChar(j % 10);
      DigitCharInjective(i % 10, j % 10);
      assert NatToString(i / 10) == a[..|a| - 1] == b[..|b| - 1] == NatToString(j / 10);
      NatToStringInjective(i / 10, j / 10);
    }
  }

  /**
   * Below a child `q + a` with `a` a digit string, the character right after
   * `a` is never a digit; so a longer digit string `b` cannot share keys with `a`.
   */
  lemma DigitStemsApart(q: string, a: string, b: string, k: string)
    requires 0 < |a| <= |b| && a != b
    requires forall i | 0 <= i < |b| :: IsDigit(b[i])
    ensures !(Below(q + a, k) && Below(q + b, k))
  {
    var p := |q + a|;
    BelowHasPrefix(q + a, k);
    BelowHasPrefix(q + b, k);
    if |a| == |b| {
      assert forall k' :: HasPrefix(k', q + a) && HasPrefix(k', q + b) ==> q + a == q + b by {
        forall k' ensures HasPrefix(k', q + a) && HasPrefix(k', q + b) ==> q + a == q + b {
          CommonExtension(k', q + a, q + b);
        }
      }
      assert q + a != q + b by {
        assert a == (q + a)[|q|..] && b == (q + b)[|q|..];
      }
    } else {
      assert (q + b)[p] == b[|a|];
      PrefixCharAt(k, q + b, p);
      assert HasPrefix(k, q + b) ==> IsDigit(k[p]);
      PrefixCharAt(k, q + a + "/", p);
      PrefixCharAt(k, q + a + ".", p);
    }
  }

  /** Distinct instances of one repeated element have disjoint subtrees. */
  lemma IndexedApart(d: string, i: nat, j: nat, k: string)
    requires i != j
    ensures !(Below(Indexed(d, i), k) && Below(Indexed(d, j), k))
  {
    var a, b := NatToString(i), NatToString(j);
    if a == b { NatToStringInjective(i, j); }
    if |a| <= |b| {
      DigitStemsApart(d + ".", a, b, k);
    } else {
      DigitStemsApart(d + ".", b, a, k);
    }
  }

  /** The count key of `d` is below no instance of `d`. */
  lemma CountKeyNotIndexed(d: string, i: nat)
    ensures !HasPrefix(CountKey(d), Indexed(d, i))
    ensures !Below(Indexed(d, i), CountKey(d))
  {
    var k := CountKey(d);
    BelowHasPrefix(Indexed(d, i), k);
    assert Indexed(d, i)[|d| + 1] == NatToString(i)[0];
    PrefixCharAt(k, Indexed(d, i), |d| + 1);
    assert k[|d| + 1] == 'c';
  }

  lemma CountKeyIsCountKey(p: string)
    ensures IsCountKey(CountKey(p))
    ensures HasPrefix(CountKey(p), p)
    ensures HasPrefix(CountKey(p), p + ".")
  {
    assert CountKey(p)[|CountKey(p)| - 6..] == ".count";
    assert CountKey(p)[..|p| + 1] == p + ".";
    PrefixOfConcat(p, ".count");
  }

  /** An instance key extends its element's key. */
  lemma IndexedHasPrefix(p: string, i: nat)
    ensures HasPrefix(Indexed(p, i), p)
  {
    PrefixOfConcat(p, "." + NatToString(i));
    assert Indexed(p, i) == p + ("." + NatToString(i));
  }

  /** Keys below a child `d + x` are below `d`, for every key at once. */
  lemma ChildBelow(d: string, x: string)
    requires |x| > 0 && (x[0] == '/' || x[0] == '.')
    ensures forall k :: Below(d + x, k) ==> Below(d, k)
  {
    forall k ensures Below(d + x, k) ==> Below(d, k) {
      BelowChild(d, x, k);
    }
  }

  /** Keys below an instance of `d` are below `d + "."`, for every key at once. */
  lemma IndexedBelow(d: string, i: nat)
    ensures forall k :: Below(Indexed(d, i), k) ==> HasPrefix(k, d + ".") && Below(d, k)
  {
    forall k ensures Below(Indexed(d, i), k) ==> HasPrefix(k, d + ".") && Below(d, k) {
      BelowIndexed(d, i, k);
    }
  }

  /**
   * A named child `x` of `d` other than `/language` covers neither `d` itself
   * nor the language key of `d`.
   */
  lemma ChildMissesNode(d: string, x: string)
    requires |x| > 1 && x[0] == '/' && x[1] != 'l'
    ensures !Below(d + x, d)
    ensures !Below(d + x, d + "/language")
  {
    ShorterNotBelow(d + x, d);
    SiblingsApart(d, "/language", x, 1, d + "/language");
  }
}
