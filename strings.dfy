/** Strings as sequences of characters: splitting at a separator, as
    `String.prototype.split` does with a one-character separator, and the
    ASCII case mapping. */
module Strings {

  /** `s.split(sep)`: the pieces between the separators, at least one. */
  function Split(s: string, sep: char): (r: seq<string>)
    ensures |r| >= 1 && (forall k :: 0 <= k < |r| ==> sep !in r[k])
    ensures Join(r, sep) == s
  {
    if s == [] then [""]
    else if s[0] == sep then [""] + Split(s[1..], sep)
    else
      var t := Split(s[1..], sep);
      [[s[0]] + t[0]] + t[1..]
  }

  /** The pieces put back together with `sep` between them. */
  function Join(ps: seq<string>, sep: char): string
    requires |ps| >= 1
  {
    if |ps| == 1 then ps[0] else ps[0] + [sep] + Join(ps[1..], sep)
  }

  /** Splitting the joined pieces gives the pieces back. */
  lemma {:induction false} SplitJoin(ps: seq<string>, sep: char)
    requires |ps| >= 1 && forall k :: 0 <= k < |ps| ==> sep !in ps[k]
    ensures Split(Join(ps, sep), sep) == ps
    decreases |ps|, |ps[0]|
  {
    if ps[0] == [] {
      if |ps| > 1 {
        assert Join(ps, sep) == [sep] + Join(ps[1..], sep);
        assert ([sep] + Join(ps[1..], sep))[1..] == Join(ps[1..], sep);
        SplitJoin(ps[1..], sep);
        assert [""] + ps[1..] == ps;
      }
    } else {
      var c := ps[0][0];
      var qs := [ps[0][1..]] + ps[1..];
      assert qs[1..] == ps[1..];
      assert Join(ps, sep) == [c] + Join(qs, sep) by {
        if |ps| > 1 {
          assert Join(qs, sep) == ps[0][1..] + [sep] + Join(ps[1..], sep);
        }
        assert ps[0] == [c] + ps[0][1..];
      }
      assert ([c] + Join(qs, sep))[1..] == Join(qs, sep);
      SplitJoin(qs, sep);
      assert [[c] + qs[0]] + qs[1..] == ps;
    }
  }

  /** `toLowerCase` on one character: ASCII letters only. */
  function LowerChar(c: char): char
  {
    if 'A' <= c <= 'Z' then (c as int + 32) as char else c
  }

  /** `toLowerCase` on ASCII letters; other characters are kept. */
  function Lower(s: string): (r: string)
    ensures |r| == |s| && forall k :: 0 <= k < |s| ==> r[k] == LowerChar(s[k])
  {
    if s == [] then [] else [LowerChar(s[0])] + Lower(s[1..])
  }

  /** `s.indexOf(a)` for a character, or |s| when it is absent. */
  function IndexOf(s: string, a: char): (i: nat)
    ensures i <= |s| && a !in s[..i] && (i < |s| ==> s[i] == a)
  {
    if s == [] then 0
    else if s[0] == a then 0
    else
      var i := IndexOf(s[1..], a);
      assert s[..i + 1] == [s[0]] + s[1..][..i];
      i + 1
  }

  /** `s.replace(a, b)` with a one-character pattern: only the first
      occurrence is replaced. */
  function ReplaceFirst(s: string, a: char, b: char): (r: string)
    ensures |r| == |s| && (a !in s ==> r == s)
    ensures forall k :: 0 <= k < |s| ==> r[k] == (if k == IndexOf(s, a) then b else s[k])
  {
    var i := IndexOf(s, a);
    if i == |s| then s else s[..i] + [b] + s[i + 1..]
  }

  /** The first two pieces of `s.split(c)`: the text before the first `c`
      and, when there is one, the rest after it split again. */
  lemma {:induction false} SplitParts(s: string, c: char)
    ensures var i := IndexOf(s, c);
            Split(s, c)[0] == s[..i] && (|Split(s, c)| > 1 <==> i < |s|) &&
            (i < |s| ==> Split(s, c)[1..] == Split(s[i + 1..], c))
  {
    if s != [] && s[0] != c {
      SplitParts(s[1..], c);
      var i := IndexOf(s[1..], c);
      assert s[..i + 1] == [s[0]] + s[1..][..i];
      if i < |s[1..]| {
        assert s[i + 2..] == s[1..][i + 1..];
      }
    }
  }

  /** A decimal digit. */
  function Digit(d: nat): char
    requires d < 10
  {
    ('0' as int + d) as char
  }

  /** `String(n)` for a non-negative integer. */
  function Decimal(n: nat): (s: string)
    ensures |s| >= 1 && forall k :: 0 <= k < |s| ==> '0' <= s[k] <= '9'
  {
    if n < 10 then [Digit(n)] else Decimal(n / 10) + [Digit(n % 10)]
  }

  /** Different numbers have different decimal forms. */
  lemma {:induction false} DecimalInjective(a: nat, b: nat)
    requires Decimal(a) == Decimal(b)
    ensures a == b
    decreases a
  {
    if a >= 10 && b >= 10 {
      var sa, sb := Decimal(a), Decimal(b);
      assert sa[|sa| - 1] == Digit(a % 10) && sb[|sb| - 1] == Digit(b % 10);
      assert sa[..|sa| - 1] == Decimal(a / 10) && sb[..|sb| - 1] == Decimal(b / 10);
      DecimalInjective(a / 10, b / 10);
    }
  }
}
