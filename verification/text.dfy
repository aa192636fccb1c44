/** The string primitives the onboarding handler relies on, written the way
    Rust's `str` defines them: `trim`, `split(" ")`, `contains`, `replace`
    and (ASCII-only) `to_lowercase`. Strings are sequences of Unicode
    scalar values, as Rust `char`s are. */
module Text {

  /** Rust's `char::is_whitespace`: the Unicode White_Space property. */
  predicate IsWhitespace(c: char) {
    var n := c as int;
    || (0x09 <= n <= 0x0D) || n == 0x20 || n == 0x85 || n == 0xA0 || n == 0x1680
    || (0x2000 <= n <= 0x200A) || n == 0x2028 || n == 0x2029 || n == 0x202F
    || n == 0x205F || n == 0x3000
  }

  /** Every character of `s` is whitespace (vacuously true of ""). */
  predicate AllWhitespace(s: string) {
    forall i :: 0 <= i < |s| ==> IsWhitespace(s[i])
  }

  /** `str::trim_start`: drops the leading whitespace. */
  function TrimStart(s: string): (r: string)
    ensures |r| <= |s| && r == s[|s| - |r|..]
    ensures |r| > 0 ==> !IsWhitespace(r[0])
    ensures AllWhitespace(s[..|s| - |r|])
  {
    if |s| > 0 && IsWhitespace(s[0]) then
      var r := TrimStart(s[1..]);
      assert s[1..][..|s[1..]| - |r|] == s[1..|s| - |r|];
      r
    else s
  }

  /** `str::trim_end`: drops the trailing whitespace. */
  function TrimEnd(s: string): (r: string)
    ensures |r| <= |s| && r == s[..|r|]
    ensures |r| > 0 ==> !IsWhitespace(r[|r| - 1])
    ensures AllWhitespace(s[|r|..])
  {
    if |s| > 0 && IsWhitespace(s[|s| - 1]) then
      var r := TrimEnd(s[..|s| - 1]);
      assert s[..|s| - 1][|r|..] + [s[|s| - 1]] == s[|r|..];
      r
    else s
  }

  /** `str::trim`. */
  function Trim(s: string): string {
    TrimEnd(TrimStart(s))
  }

  /** `s.trim().is_empty()` holds exactly when every character of `s` is
      whitespace. */
  lemma TrimEmptyIffAllWhitespace(s: string)
    ensures Trim(s) == [] <==> AllWhitespace(s)
  {
    var t := TrimStart(s);
    if Trim(s) == [] {
      assert s[..|s|] == s;
    }
  }

  /** Number of occurrences of the character `c` in `s`. */
  function Count(s: string, c: char): nat {
    if |s| == 0 then 0 else (if s[0] == c then 1 else 0) + Count(s[1..], c)
  }

  lemma {:induction false} CountZeroIffAbsent(s: string, c: char)
    ensures Count(s, c) == 0 <==> c !in s
  {
    if |s| > 0 {
      CountZeroIffAbsent(s[1..], c);
      assert s == [s[0]] + s[1..];
    }
  }

  /** `s.split(" ")`: the pieces between single spaces. Consecutive spaces
      and spaces at either end give empty pieces, and "" gives [""]. */
  function Split(s: string): (parts: seq<string>)
    ensures |parts| == Count(s, ' ') + 1
    ensures forall i :: 0 <= i < |parts| ==> ' ' !in parts[i]
  {
    if |s| == 0 then [""]
    else
      var rest := Split(s[1..]);
      if s[0] == ' ' then [""] + rest
      else [[s[0]] + rest[0]] + rest[1..]
  }

  /** The pieces glued back together with single spaces. */
  function Join(parts: seq<string>): string
    requires |parts| >= 1
  {
    if |parts| == 1 then parts[0] else parts[0] + " " + Join(parts[1..])
  }

  /** Splitting loses nothing: joining the pieces gives back the message. */
  lemma {:induction false} JoinSplit(s: string)
    ensures Join(Split(s)) == s
  {
    if |s| > 0 {
      var rest := Split(s[1..]);
      JoinSplit(s[1..]);
      if s[0] == ' ' {
        assert Split(s)[1..] == rest;
      } else {
        var parts := Split(s);
        assert parts[0] == [s[0]] + rest[0];
        if |rest| > 1 {
          assert parts[1..] == rest[1..];
          assert Join(rest) == rest[0] + " " + Join(rest[1..]);
        }
        assert s == [s[0]] + s[1..];
      }
    }
  }

  /** A piece without spaces followed by a space is split off as one token. */
  lemma {:induction false} SplitPrefix(p: string, r: string)
    requires ' ' !in p
    ensures Split(p + " " + r) == [p] + Split(r)
  {
    if |p| == 0 {
      assert (p + " " + r)[1..] == r;
    } else {
      SplitPrefix(p[1..], r);
      assert (p + " " + r)[1..] == p[1..] + " " + r;
      assert [p[0]] + p[1..] == p;
    }
  }

  /** A string without spaces is a single token, itself. */
  lemma SplitNoSpace(s: string)
    requires ' ' !in s
    ensures Split(s) == [s]
  {
    CountZeroIffAbsent(s, ' ');
    JoinSplit(s);
  }

  /** Joining space-free pieces and splitting again gives the pieces back,
      so `Split` and `Join` are inverse on space-free pieces. */
  lemma {:induction false} SplitJoin(parts: seq<string>)
    requires |parts| >= 1
    requires forall i :: 0 <= i < |parts| ==> ' ' !in parts[i]
    ensures Split(Join(parts)) == parts
  {
    if |parts| == 1 {
      SplitNoSpace(parts[0]);
    } else {
      SplitJoin(parts[1..]);
      SplitPrefix(parts[0], Join(parts[1..]));
    }
  }

  /** ASCII lower-casing of one character. */
  function LowerChar(c: char): char {
    if 'A' <= c <= 'Z' then (c as int + 32) as char else c
  }

  /** `to_lowercase`, restricted to ASCII letters. */
  function LowerAscii(s: string): (r: string)
    ensures |r| == |s|
    ensures forall i :: 0 <= i < |s| ==> r[i] == LowerChar(s[i])
  {
    seq(|s|, i requires 0 <= i < |s| => LowerChar(s[i]))
  }

  /** Lower-casing twice is lower-casing once. */
  lemma LowerAsciiIdempotent(s: string)
    ensures LowerAscii(LowerAscii(s)) == LowerAscii(s)
  {
  }

  /** `s.replace(c, "")`: every occurrence of `c` deleted, the other
      characters kept in order. */
  function RemoveAll(s: string, c: char): (r: string)
    ensures c !in r
    ensures |r| == |s| - Count(s, c)
    ensures forall x :: x != c ==> (x in r <==> x in s)
  {
    if |s| == 0 then ""
    else
      var rest := RemoveAll(s[1..], c);
      assert forall x :: x in s <==> x == s[0] || x in s[1..];
      if s[0] == c then rest else [s[0]] + rest
  }

  /** One character is deleted if it is `c` and kept otherwise. */
  lemma RemoveAllChar(x: char, c: char)
    ensures RemoveAll([x], c) == if x == c then [] else [x]
  {
    assert [x][1..] == [];
  }

  /** Deleting distributes over concatenation, so the kept characters
      stay in their original order. */
  lemma {:induction false} RemoveAllAppend(a: string, b: string, c: char)
    ensures RemoveAll(a + b, c) == RemoveAll(a, c) + RemoveAll(b, c)
  {
    if |a| > 0 {
      RemoveAllAppend(a[1..], b, c);
      assert (a + b)[1..] == a[1..] + b;
    } else {
      assert a + b == b;
    }
  }

  /** Deleting a character that does not occur changes nothing. */
  lemma {:induction false} RemoveAbsent(s: string, c: char)
    requires c !in s
    ensures RemoveAll(s, c) == s
  {
    if |s| > 0 {
      RemoveAbsent(s[1..], c);
      assert s == [s[0]] + s[1..];
    }
  }

  /** `s.contains(pat)`: `pat` occurs somewhere in `s` as a substring. */
  predicate ContainsSub(s: string, pat: string) {
    || (|pat| <= |s| && s[..|pat|] == pat)
    || (|s| > 0 && ContainsSub(s[1..], pat))
  }

  /** `pat` occurs in `s` starting at index `i`. */
  predicate OccursAt(s: string, pat: string, i: int) {
    0 <= i && i + |pat| <= |s| && s[i..i + |pat|] == pat
  }

  /** The scan agrees with the direct definition: `pat` occurs at some
      index of `s`. */
  lemma {:induction false} ContainsSubIff(s: string, pat: string)
    ensures ContainsSub(s, pat) <==> exists i :: OccursAt(s, pat, i)
  {
    if |pat| <= |s| && s[..|pat|] == pat {
      assert OccursAt(s, pat, 0);
    } else if |s| > 0 {
      ContainsSubIff(s[1..], pat);
      if ContainsSub(s[1..], pat) {
        var j :| OccursAt(s[1..], pat, j);
        assert s[j + 1..j + 1 + |pat|] == s[1..][j..j + |pat|];
        assert OccursAt(s, pat, j + 1);
      } else if exists i :: OccursAt(s, pat, i) {
        var i :| OccursAt(s, pat, i);
        assert s[..|pat|] == s[0..|pat|];
        assert i != 0;
        assert s[1..][i - 1..i - 1 + |pat|] == s[i..i + |pat|];
        assert OccursAt(s[1..], pat, i - 1);
      }
    } else {
      assert |pat| > 0;
    }
  }

  /** A single character is contained exactly when it is an element. */
  lemma ContainsChar(s: string, c: char)
    ensures ContainsSub(s, [c]) <==> c in s
  {
    ContainsSubIff(s, [c]);
    if c in s {
      var i :| 0 <= i < |s| && s[i] == c;
      assert s[i..i + 1] == [c];
      assert OccursAt(s, [c], i);
    }
    if exists i :: OccursAt(s, [c], i) {
      var i :| OccursAt(s, [c], i);
      assert s[i] == s[i..i + 1][0] == c;
    }
  }
}
