/**
 The string operations the mixins rely on: Python's `str.lower()` restricted
 to ASCII letters, and `str.split(sep)` for a one-character separator, with
 its inverse `sep.join(parts)`.
 */
module Text {

  predicate IsUpper(c: char) {
    'A' <= c <= 'Z'
  }

  /** A string with no upper-case ASCII letter. */
  predicate IsLower(s: string) {
    forall i :: 0 <= i < |s| ==> !IsUpper(s[i])
  }

  function LowerChar(c: char): char {
    if IsUpper(c) then (c as int - 'A' as int + 'a' as int) as char else c
  }

  /** `s.lower()` on ASCII: every upper-case letter is replaced by its
      lower-case partner, every other character is kept in place. */
  function Lower(s: string): (r: string)
    ensures |r| == |s|
    ensures IsLower(r)
    ensures forall i :: 0 <= i < |s| && !IsUpper(s[i]) ==> r[i] == s[i]
    ensures forall i :: 0 <= i < |s| && IsUpper(s[i]) ==> r[i] != s[i] && r[i] as int == s[i] as int + 32
  {
    seq(|s|, i requires 0 <= i < |s| => LowerChar(s[i]))
  }

  /** Lowering keeps a string that has no upper-case letter unchanged. */
  lemma LowerOfLower(s: string)
    requires IsLower(s)
    ensures Lower(s) == s
  {
  }

  lemma LowerIdempotent(s: string)
    ensures Lower(Lower(s)) == Lower(s)
  {
    LowerOfLower(Lower(s));
  }

  lemma LowerConcat(a: string, b: string)
    ensures Lower(a + b) == Lower(a) + Lower(b)
  {
  }

  /** Number of occurrences of `c` in `s`. */
  function Count(s: string, c: char): nat {
    if |s| == 0 then 0 else (if s[0] == c then 1 else 0) + Count(s[1..], c)
  }

  /** `sep.join(parts)`. */
  function Join(parts: seq<string>, sep: char): string
    requires |parts| >= 1
  {
    if |parts| == 1 then parts[0] else parts[0] + [sep] + Join(parts[1..], sep)
  }

  /** `s.split(sep)`: the maximal separator-free pieces of `s`, so one more
      piece than there are separators, and joining them gives `s` back. */
  function Split(s: string, sep: char): (parts: seq<string>)
    ensures |parts| == Count(s, sep) + 1
    ensures forall i :: 0 <= i < |parts| ==> sep !in parts[i]
    ensures Join(parts, sep) == s
    decreases |s|
  {
    if |s| == 0 then [""]
    else
      var rest := Split(s[1..], sep);
      if s[0] == sep then [""] + rest
      else [[s[0]] + rest[0]] + rest[1..]
  }

  /** A separator-free head splits off as a piece of its own. */
  lemma {:induction false} SplitAfterPiece(p: string, sep: char, t: string)
    requires sep !in p
    ensures Split(p + [sep] + t, sep) == [p] + Split(t, sep)
    decreases |p|
  {
    var s := p + [sep] + t;
    if |p| == 0 {
      assert s[1..] == t;
    } else {
      assert s[1..] == p[1..] + [sep] + t;
      SplitAfterPiece(p[1..], sep, t);
      assert [p[0]] + p[1..] == p;
    }
  }

  /** Splitting undoes joining separator-free pieces. */
  lemma {:induction false} SplitJoin(parts: seq<string>, sep: char)
    requires |parts| >= 1
    requires forall i :: 0 <= i < |parts| ==> sep !in parts[i]
    ensures Split(Join(parts, sep), sep) == parts
    decreases |parts|
  {
    if |parts| == 1 {
      var ps := Split(parts[0], sep);
      assert |ps| == 1;
    } else {
      SplitJoin(parts[1..], sep);
      SplitAfterPiece(parts[0], sep, Join(parts[1..], sep));
      assert [parts[0]] + parts[1..] == parts;
    }
  }

  /** Lowering never creates nor removes a '.', so the number of dots is kept. */
  lemma {:induction false} CountDotsLower(s: string)
    ensures Count(Lower(s), '.') == Count(s, '.')
    decreases |s|
  {
    if |s| > 0 {
      assert Lower(s)[1..] == Lower(s[1..]);
      CountDotsLower(s[1..]);
    }
  }

  function LowerAll(parts: seq<string>): (r: seq<string>)
    ensures |r| == |parts|
    ensures forall i :: 0 <= i < |parts| ==> r[i] == Lower(parts[i])
  {
    seq(|parts|, i requires 0 <= i < |parts| => Lower(parts[i]))
  }

  /** Lowering a joined string lowers each piece. */
  lemma {:induction false} LowerJoin(parts: seq<string>, sep: char)
    requires |parts| >= 1
    requires !IsUpper(sep)
    ensures Lower(Join(parts, sep)) == Join(LowerAll(parts), sep)
    decreases |parts|
  {
    if |parts| > 1 {
      LowerJoin(parts[1..], sep);
      LowerConcat(parts[0] + [sep], Join(parts[1..], sep));
      LowerConcat(parts[0], [sep]);
      assert LowerAll(parts)[1..] == LowerAll(parts[1..]);
    }
  }

  lemma LowerKeepsDotFree(p: string)
    requires '.' !in p
    ensures '.' !in Lower(p)
  {
    var r := Lower(p);
    forall i | 0 <= i < |r|
      ensures r[i] != '.'
    {
      assert p[i] != '.';
    }
  }

  /** Splitting on '.' commutes with lowering: the pieces of the lowered
      string are the lowered pieces of the original. */
  lemma SplitLower(s: string)
    ensures Split(Lower(s), '.') == LowerAll(Split(s, '.'))
  {
    var parts := Split(s, '.');
    LowerJoin(parts, '.');
    forall i | 0 <= i < |parts|
      ensures '.' !in LowerAll(parts)[i]
    {
      LowerKeepsDotFree(parts[i]);
    }
    SplitJoin(LowerAll(parts), '.');
  }
}
