/**
 * String helpers with JavaScript's semantics: `String.prototype.split` on one
 * separator character, `Array.prototype.join`, decimal rendering of numbers and
 * substring search (Prisma's `contains`).
 */
module Strings {

  /** `s.split(d)`: the maximal `d`-free pieces between separators, at least one. */
  function Split(s: string, d: char): (parts: seq<string>)
    ensures |parts| >= 1
    ensures forall i :: 0 <= i < |parts| ==> d !in parts[i]
    decreases |s|
  {
    if s == [] then [[]]
    else
      var rest := Split(s[1..], d);
      if s[0] == d then [[]] + rest
      else [[s[0]] + rest[0]] + rest[1..]
  }

  /** `parts.join(sep)`. */
  function Join(parts: seq<string>, sep: string): string
    decreases |parts|
  {
    if parts == [] then []
    else if |parts| == 1 then parts[0]
    else parts[0] + sep + Join(parts[1..], sep)
  }

  /** Joining the pieces of a split with the separator gives back the string. */
  lemma {:induction false} JoinSplit(s: string, d: char)
    ensures Join(Split(s, d), [d]) == s
    decreases |s|
  {
    if s != [] {
      var rest := Split(s[1..], d);
      JoinSplit(s[1..], d);
      if s[0] == d {
        assert Split(s, d) == [[]] + rest;
        assert Join([[]] + rest, [d]) == [] + [d] + Join(rest, [d]);
      } else {
        var parts := Split(s, d);
        assert parts == [[s[0]] + rest[0]] + rest[1..];
        if |rest| == 1 {
          assert parts == [[s[0]] + rest[0]];
        } else {
          assert Join(rest, [d]) == rest[0] + [d] + Join(rest[1..], [d]);
          assert parts[1..] == rest[1..];
          assert Join(parts, [d]) == [s[0]] + rest[0] + [d] + Join(rest[1..], [d]);
        }
      }
    }
  }

  /** A piece free of the separator followed by the separator splits off as one piece. */
  lemma {:induction false} SplitPiece(x: string, d: char, rest: string)
    requires d !in x
    ensures Split(x + [d] + rest, d) == [x] + Split(rest, d)
    decreases |x|
  {
    if x == [] {
      assert x + [d] + rest == [d] + rest;
      assert ([d] + rest)[1..] == rest;
    } else {
      SplitPiece(x[1..], d, rest);
      assert (x + [d] + rest)[1..] == x[1..] + [d] + rest;
      assert [x[0]] + x[1..] == x;
    }
  }

  /** A string without the separator splits into itself alone. */
  lemma {:induction false} SplitWhole(x: string, d: char)
    requires d !in x
    ensures Split(x, d) == [x]
    decreases |x|
  {
    if x != [] {
      SplitWhole(x[1..], d);
      assert [x[0]] + x[1..] == x;
    }
  }

  /** Splitting what was joined from separator-free pieces gives back the pieces. */
  lemma {:induction false} SplitJoin(parts: seq<string>, d: char)
    requires |parts| >= 1
    requires forall i :: 0 <= i < |parts| ==> d !in parts[i]
    ensures Split(Join(parts, [d]), d) == parts
    decreases |parts|
  {
    if |parts| == 1 {
      SplitWhole(parts[0], d);
    } else {
      SplitJoin(parts[1..], d);
      SplitPiece(parts[0], d, Join(parts[1..], [d]));
      assert [parts[0]] + parts[1..] == parts;
    }
  }

  /** The character of a decimal digit. */
  function DigitChar(n: nat): char
    requires n < 10
  {
    "0123456789"[n]
  }

  /** Decimal rendering of a natural number, as `${n}` prints it. */
  function NatToString(n: nat): string
    decreases n
  {
    if n < 10 then [DigitChar(n)] else NatToString(n / 10) + [DigitChar(n % 10)]
  }

  /** Decimal rendering of an integer, as `${n}` prints it. */
  function IntToString(n: int): string {
    if n < 0 then "-" + NatToString(-n) else NatToString(n)
  }

  /** Prisma's `contains` filter on strings: `sub` occurs in `s`. */
  predicate HasSubstring(s: string, sub: string)
    decreases |s|
  {
    if |s| < |sub| then false
    else s[..|sub|] == sub || (s != [] && HasSubstring(s[1..], sub))
  }
}
