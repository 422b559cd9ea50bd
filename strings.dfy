/**
 * The string operations of the page script: the regular-expression class
 * `\s`, `toLowerCase`, `includes`, `split` on one character and the
 * loop that drops leading spaces from a cookie entry.
 */
module Strings {

  /** The characters JavaScript's `\s` matches (white space and line terminators). */
  predicate IsWhitespace(c: char)
  {
    || c == ' ' || c == '\t' || c == '\n' || c == '\r'
    || c == '\U{000B}' || c == '\U{000C}' || c == '\U{00A0}' || c == '\U{1680}'
    || ('\U{2000}' <= c <= '\U{200A}')
    || c == '\U{2028}' || c == '\U{2029}' || c == '\U{202F}' || c == '\U{205F}'
    || c == '\U{3000}' || c == '\U{FEFF}'
  }

  /** Upper-case letters of the ASCII and basic Cyrillic ranges. */
  predicate IsUpper(c: char)
  {
    ('A' <= c <= 'Z') || ('\U{0400}' <= c <= '\U{042F}')
  }

  /**
   * `u` is a capital and `l` the small form of the same letter: the same
   * position in A-Z and a-z, in А-Я and а-я, or in Ѐ-Џ and ѐ-џ.
   */
  predicate CasePair(u: char, l: char)
  {
    || ('A' <= u <= 'Z' && 'a' <= l <= 'z' && u as int - 'A' as int == l as int - 'a' as int)
    || ('\U{0410}' <= u <= '\U{042F}' && '\U{0430}' <= l <= '\U{044F}'
        && u as int - 0x0410 == l as int - 0x0430)
    || ('\U{0400}' <= u <= '\U{040F}' && '\U{0450}' <= l <= '\U{045F}'
        && u as int - 0x0400 == l as int - 0x0450)
  }

  /** `c` and `d` are the same character, or the two cases of the same letter. */
  predicate SameLetter(c: char, d: char)
  {
    c == d || CasePair(c, d) || CasePair(d, c)
  }

  /** `toLowerCase` on one character: the small form of the same letter. */
  function LowerChar(c: char): (l: char)
    ensures !IsUpper(l)
    ensures SameLetter(c, l)
    ensures !IsUpper(c) ==> l == c
  {
    if 'A' <= c <= 'Z' then (c as int + 32) as char
    else if '\U{0400}' <= c <= '\U{040F}' then (c as int + 0x50) as char
    else if '\U{0410}' <= c <= '\U{042F}' then (c as int + 0x20) as char
    else c
  }

  /** `s.toLowerCase()`, character by character. */
  function ToLower(s: string): (r: string)
  {
    seq(|s|, i requires 0 <= i < |s| => LowerChar(s[i]))
  }

  /** Two cases of the same letter lower-case to the same character. */
  lemma LowerCharIgnoresCase(c: char, d: char)
    requires SameLetter(c, d)
    ensures LowerChar(c) == LowerChar(d)
  {
  }

  /** Strings that differ only in the case of their letters lower-case to the same string. */
  lemma ToLowerIgnoresCase(s: string, t: string)
    requires |s| == |t|
    requires forall i :: 0 <= i < |s| ==> SameLetter(s[i], t[i])
    ensures ToLower(s) == ToLower(t)
  {
    forall i | 0 <= i < |s| ensures ToLower(s)[i] == ToLower(t)[i] {
      LowerCharIgnoresCase(s[i], t[i]);
    }
  }

  /** Lower-casing leaves no upper-case letter and keeps the length. */
  lemma ToLowerIsLower(s: string)
    ensures |ToLower(s)| == |s|
    ensures forall i :: 0 <= i < |s| ==> !IsUpper(ToLower(s)[i])
  {
  }

  /** Lower-casing twice is lower-casing once. */
  lemma ToLowerIdempotent(s: string)
    ensures ToLower(ToLower(s)) == ToLower(s)
  {
    var l := ToLower(s);
    assert forall i :: 0 <= i < |l| ==> LowerChar(l[i]) == l[i];
  }

  /** `q` occurs in `s` starting at position `i`. */
  predicate OccursAt(s: string, q: string, i: int)
  {
    0 <= i && i + |q| <= |s| && s[i..i + |q|] == q
  }

  /** `s.includes(q)`: `q` occurs in `s` at some position. */
  function Includes(s: string, q: string): (r: bool)
    ensures r <==> exists i :: OccursAt(s, q, i)
  {
    if q <= s then
      assert OccursAt(s, q, 0);
      true
    else if s == [] then false
    else
      var r := Includes(s[1..], q);
      assert forall i :: OccursAt(s, q, i) <==> i >= 1 && OccursAt(s[1..], q, i - 1) by {
        forall i | OccursAt(s, q, i) ensures i >= 1 && OccursAt(s[1..], q, i - 1) {
          assert i != 0;
          assert s[1..][i - 1..i - 1 + |q|] == s[i..i + |q|];
        }
        forall i | i >= 1 && OccursAt(s[1..], q, i - 1) ensures OccursAt(s, q, i) {
          assert s[1..][i - 1..i - 1 + |q|] == s[i..i + |q|];
        }
      }
      assert (exists i :: OccursAt(s[1..], q, i)) ==> exists i :: OccursAt(s, q, i) by {
        if j :| OccursAt(s[1..], q, j) {
          assert OccursAt(s, q, j + 1);
        }
      }
      r
  }

  /** `s.split(sep)`: the pieces between separators, one more than there are separators. */
  function Split(s: string, sep: char): (parts: seq<string>)
    ensures |parts| >= 1
  {
    if s == [] then [[]]
    else
      var rest := Split(s[1..], sep);
      if s[0] == sep then [[]] + rest
      else [[s[0]] + rest[0]] + rest[1..]
  }

  /** No piece of a split holds the separator. */
  lemma {:induction false} SplitPiecesLackSeparator(s: string, sep: char)
    ensures forall k :: 0 <= k < |Split(s, sep)| ==> sep !in Split(s, sep)[k]
  {
    if s != [] {
      SplitPiecesLackSeparator(s[1..], sep);
      var rest := Split(s[1..], sep);
      if s[0] != sep {
        assert Split(s, sep) == [[s[0]] + rest[0]] + rest[1..];
        assert sep !in rest[0];
      } else {
        assert Split(s, sep) == [[]] + rest;
      }
    }
  }

  /** The inverse of Split: the pieces with a separator between neighbours. */
  function Join(parts: seq<string>, sep: char): string
    requires |parts| >= 1
  {
    if |parts| == 1 then parts[0] else parts[0] + [sep] + Join(parts[1..], sep)
  }

  /** Joining the pieces of a split gives back the string. */
  lemma {:induction false} JoinSplit(s: string, sep: char)
    ensures Join(Split(s, sep), sep) == s
  {
    if s != [] {
      var rest := Split(s[1..], sep);
      JoinSplit(s[1..], sep);
      if s[0] != sep {
        var parts := [[s[0]] + rest[0]] + rest[1..];
        assert parts[1..] == rest[1..];
      }
    }
  }

  /** A string free of separators followed by `t` splits onto Split(t)'s first piece. */
  lemma {:induction false} SplitPrefixed(x: string, t: string, sep: char)
    requires sep !in x
    ensures Split(x + t, sep) == [x + Split(t, sep)[0]] + Split(t, sep)[1..]
  {
    if x != [] {
      SplitPrefixed(x[1..], t, sep);
      var p := Split(t, sep);
      assert (x + t)[1..] == x[1..] + t;
      assert (x + t)[0] == x[0] != sep;
      assert [x[0]] + (x[1..] + p[0]) == x + p[0];
    } else {
      var p := Split(t, sep);
      assert x + t == t;
      assert x + p[0] == p[0];
      assert p == [p[0]] + p[1..];
    }
  }

  /** Splitting pieces joined by the separator gives back the pieces. */
  lemma {:induction false} SplitJoin(parts: seq<string>, sep: char)
    requires |parts| >= 1
    requires forall k :: 0 <= k < |parts| ==> sep !in parts[k]
    ensures Split(Join(parts, sep), sep) == parts
  {
    if |parts| == 1 {
      SplitPrefixed(parts[0], [], sep);
      assert parts[0] + [] == parts[0];
    } else {
      var tail := parts[1..];
      SplitJoin(tail, sep);
      var t := [sep] + Join(tail, sep);
      SplitPrefixed(parts[0], t, sep);
      assert t[1..] == Join(tail, sep);
      assert Split(t, sep) == [[]] + tail;
      assert parts[0] + [] == parts[0];
      assert parts == [parts[0]] + tail;
      assert parts[0] + [sep] + Join(tail, sep) == parts[0] + t;
    }
  }

  /** A string without the separator is a single piece. */
  lemma SplitWithoutSeparator(s: string, sep: char)
    requires sep !in s
    ensures Split(s, sep) == [s]
  {
    SplitPrefixed(s, [], sep);
    assert s + [] == s;
  }

  /** Joining two lists of pieces puts one separator between their joins. */
  lemma {:induction false} JoinAppend(xs: seq<string>, ys: seq<string>, sep: char)
    requires |xs| >= 1 && |ys| >= 1
    ensures Join(xs + ys, sep) == Join(xs, sep) + [sep] + Join(ys, sep)
  {
    if |xs| > 1 {
      JoinAppend(xs[1..], ys, sep);
      assert (xs + ys)[1..] == xs[1..] + ys;
    }
  }

  /** Splitting `a;b` is splitting `a` and `b` separately. */
  lemma SplitAppend(a: string, b: string, sep: char)
    ensures Split(a + [sep] + b, sep) == Split(a, sep) + Split(b, sep)
  {
    var xs, ys := Split(a, sep), Split(b, sep);
    JoinSplit(a, sep);
    JoinSplit(b, sep);
    JoinAppend(xs, ys, sep);
    SplitPiecesLackSeparator(a, sep);
    SplitPiecesLackSeparator(b, sep);
    SplitJoin(xs + ys, sep);
  }

  /**
   * What is left of `s` after the loop `while (c.charAt(0) === ' ') c = c.substring(1)`:
   * the suffix that follows the leading spaces.
   */
  function TrimLeadingSpaces(s: string): string
  {
    if s != [] && s[0] == ' ' then TrimLeadingSpaces(s[1..]) else s
  }

  /**
   * Trimming removes a run of spaces and nothing else: the result is a
   * suffix of `s`, everything before it is a space, and it does not itself
   * start with a space.
   */
  lemma {:induction false} TrimLeadingSpacesRemovesSpaces(s: string)
    ensures var r := TrimLeadingSpaces(s);
            && |r| <= |s| && r == s[|s| - |r|..]
            && (forall k :: 0 <= k < |s| - |r| ==> s[k] == ' ')
            && (r == [] || r[0] != ' ')
  {
    if s != [] && s[0] == ' ' {
      var t := s[1..];
      TrimLeadingSpacesRemovesSpaces(t);
      var r := TrimLeadingSpaces(t);
      assert TrimLeadingSpaces(s) == r;
      assert t[|t| - |r|..] == s[|s| - |r|..];
      forall k | 0 <= k < |s| - |r| ensures s[k] == ' ' {
        if k > 0 {
          assert s[k] == t[k - 1];
        }
      }
    }
  }

  /** Trimming a run of spaces in front of text that does not start with a space leaves the text. */
  lemma {:induction false} TrimLeadingSpacesAfter(spaces: string, rest: string)
    requires forall k :: 0 <= k < |spaces| ==> spaces[k] == ' '
    requires rest == [] || rest[0] != ' '
    ensures TrimLeadingSpaces(spaces + rest) == rest
  {
    if spaces == [] {
      assert spaces + rest == rest;
    } else {
      TrimLeadingSpacesAfter(spaces[1..], rest);
      var s := spaces + rest;
      assert s[0] == ' ' && s[1..] == spaces[1..] + rest;
      assert TrimLeadingSpaces(s) == TrimLeadingSpaces(s[1..]);
    }
  }
}
