/**
 * The parts of Go's `strings` package the commands rely on: `strings.Split`
 * with a one-character separator, its inverse `strings.Join`, and the ASCII
 * part of `strings.ToLower`.
 */
module Strings {

  /** Number of occurrences of `c` in `s`. */
  function Count(s: string, c: char): nat
  {
    if s == [] then 0 else (if s[0] == c then 1 else 0) + Count(s[1..], c)
  }

  lemma {:induction false} CountZero(s: string, c: char)
    ensures Count(s, c) == 0 <==> c !in s
  {
    if s != [] {
      CountZero(s[1..], c);
      assert s == [s[0]] + s[1..];
    }
  }

  /** `strings.Join(parts, string(c))`. */
  function Join(parts: seq<string>, c: char): string
  {
    if parts == [] then ""
    else if |parts| == 1 then parts[0]
    else parts[0] + [c] + Join(parts[1..], c)
  }

  /**
   * `strings.Split(s, string(c))`: the pieces of `s` between occurrences of
   * `c`. There is always one piece more than there are separators, so the
   * empty string splits into one empty piece.
   */
  function Split(s: string, c: char): (parts: seq<string>)
    ensures |parts| == Count(s, c) + 1
    ensures forall i :: 0 <= i < |parts| ==> c !in parts[i]
    ensures Join(parts, c) == s
  {
    if s == [] then [""]
    else
      var rest := Split(s[1..], c);
      if s[0] == c then
        assert s == [c] + s[1..];
        [""] + rest
      else
        var parts := [[s[0]] + rest[0]] + rest[1..];
        assert parts[1..] == rest[1..];
        assert s == [s[0]] + s[1..];
        parts
  }

  /** Position of the first `c` in `s`, or `|s|` when there is none. */
  function FirstIndex(s: string, c: char): nat
  {
    if s == [] || s[0] == c then 0 else 1 + FirstIndex(s[1..], c)
  }

  lemma {:induction false} FirstIndexAfter(p: string, rest: string, c: char)
    requires c !in p
    ensures FirstIndex(p + [c] + rest, c) == |p|
  {
    if p != [] {
      assert (p + [c] + rest)[1..] == p[1..] + [c] + rest;
      FirstIndexAfter(p[1..], rest, c);
    }
  }

  /** Joining is injective on separator-free pieces. */
  lemma {:induction false} JoinInjective(ps: seq<string>, qs: seq<string>, c: char)
    requires |ps| >= 1 && |qs| >= 1
    requires forall i :: 0 <= i < |ps| ==> c !in ps[i]
    requires forall i :: 0 <= i < |qs| ==> c !in qs[i]
    requires Join(ps, c) == Join(qs, c)
    ensures ps == qs
  {
    var s := Join(ps, c);
    if |ps| == 1 && |qs| == 1 {
    } else if |ps| == 1 {
      assert false;
    } else if |qs| == 1 {
      assert false;
    } else {
      assert s == ps[0] + [c] + Join(ps[1..], c);
      assert s == qs[0] + [c] + Join(qs[1..], c);
      FirstIndexAfter(ps[0], Join(ps[1..], c), c);
      FirstIndexAfter(qs[0], Join(qs[1..], c), c);
      var n := |ps[0]|;
      assert ps[0] == s[..n] == qs[0];
      assert Join(ps[1..], c) == s[n + 1..] == Join(qs[1..], c);
      JoinInjective(ps[1..], qs[1..], c);
      assert ps == [ps[0]] + ps[1..];
      assert qs == [qs[0]] + qs[1..];
    }
  }

  /** Splitting undoes joining, when no piece contains the separator. */
  lemma SplitJoin(parts: seq<string>, c: char)
    requires |parts| >= 1
    requires forall i :: 0 <= i < |parts| ==> c !in parts[i]
    ensures Split(Join(parts, c), c) == parts
  {
    JoinInjective(Split(Join(parts, c), c), parts, c);
  }

  /** Joining four pieces puts the separator between neighbours. */
  lemma Join4(a: string, b: string, d: string, e: string, c: char)
    ensures Join([a, b, d, e], c) == a + [c] + b + [c] + d + [c] + e
  {
    var ps := [a, b, d, e];
    assert ps[1..] == [b, d, e];
    assert [b, d, e][1..] == [d, e];
    assert [d, e][1..] == [e];
    assert Join([d, e], c) == d + [c] + e;
    assert Join([b, d, e], c) == b + [c] + (d + [c] + e);
    assert Join(ps, c) == a + [c] + (b + [c] + (d + [c] + e));
    assert b + [c] + (d + [c] + e) == b + [c] + d + [c] + e;
  }

  /** The ASCII case mapping of `unicode.ToLower`. */
  function LowerChar(ch: char): char
  {
    if 'A' <= ch <= 'Z' then (ch as int + 32) as char else ch
  }

  /** `strings.ToLower`, restricted to ASCII letters. */
  function ToLower(s: string): string
  {
    seq(|s|, i requires 0 <= i < |s| => LowerChar(s[i]))
  }
}
