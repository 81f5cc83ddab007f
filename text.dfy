/** The handful of Python string operations the catalog code relies on:
    `str.split()` on whitespace, Python 2's `unicode.split()`, `str.split(sep)`, `str.strip()`,
    `str.find`, `str.startswith`, `str.replace` and slicing. */
module Text {

  /** The characters Python's `str.split()` and `str.strip()` treat as
      whitespace in an ASCII string. */
  predicate IsSpace(c: char) {
    c == ' ' || c == '\t' || c == '\n' || c == '\r' || c == 11 as char || c == 12 as char
  }

  predicate NoSpace(s: string) {
    forall i :: 0 <= i < |s| ==> !IsSpace(s[i])
  }

  predicate AllSpace(s: string) {
    forall i :: 0 <= i < |s| ==> IsSpace(s[i])
  }

  /** The longest prefix of `s` without whitespace. */
  function Word(s: string): (w: string)
    ensures |w| <= |s| && w == s[..|w|]
    ensures NoSpace(w)
    ensures |w| < |s| ==> IsSpace(s[|w|])
    ensures s != [] && !IsSpace(s[0]) ==> |w| >= 1
  {
    if s == [] || IsSpace(s[0]) then [] else [s[0]] + Word(s[1..])
  }

  /** Python's `s.split()`: the maximal runs of non-whitespace characters,
      in order. */
  function Tokens(s: string): (r: seq<string>)
    ensures forall i :: 0 <= i < |r| ==> |r[i]| > 0 && NoSpace(r[i])
    ensures |r| <= |s|
    decreases |s|
  {
    if s == [] then []
    else if IsSpace(s[0]) then Tokens(s[1..])
    else
      var w := Word(s);
      [w] + Tokens(s[|w|..])
  }

  /** The ASCII characters Python 2's `unicode.split()` treats as
      whitespace: those of `str.split()` and also the file, group, record
      and unit separators U+001C to U+001F. */
  predicate IsUnicodeSpace(c: char) {
    IsSpace(c) || 28 <= c as int <= 31
  }

  predicate NoUnicodeSpace(s: string) {
    forall i :: 0 <= i < |s| ==> !IsUnicodeSpace(s[i])
  }

  /** Characters other than the four separators U+001C to U+001F. */
  predicate NoSeparators(s: string) {
    forall i :: 0 <= i < |s| ==> !(28 <= s[i] as int <= 31)
  }

  /** The longest prefix of `s` without `unicode` whitespace. */
  function UnicodeWord(s: string): (w: string)
    ensures |w| <= |s| && w == s[..|w|]
    ensures NoUnicodeSpace(w)
    ensures |w| < |s| ==> IsUnicodeSpace(s[|w|])
    ensures s != [] && !IsUnicodeSpace(s[0]) ==> |w| >= 1
  {
    if s == [] || IsUnicodeSpace(s[0]) then [] else [s[0]] + UnicodeWord(s[1..])
  }

  /** Python 2's `u.split()` on a `unicode` string: the maximal runs of
      characters that are not `unicode` whitespace, in order. */
  function UnicodeTokens(s: string): (r: seq<string>)
    ensures forall i :: 0 <= i < |r| ==> |r[i]| > 0 && NoUnicodeSpace(r[i])
    ensures |r| <= |s|
    decreases |s|
  {
    if s == [] then []
    else if IsUnicodeSpace(s[0]) then UnicodeTokens(s[1..])
    else
      var w := UnicodeWord(s);
      [w] + UnicodeTokens(s[|w|..])
  }

  lemma {:induction false} UnicodeWordAgrees(s: string)
    requires NoSeparators(s)
    ensures UnicodeWord(s) == Word(s)
    decreases |s|
  {
    if s != [] && !IsSpace(s[0]) {
      assert !IsUnicodeSpace(s[0]);
      UnicodeWordAgrees(s[1..]);
    }
  }

  /** On text without the separators U+001C to U+001F, `unicode.split()`
      and `str.split()` give the same tokens. */
  lemma {:induction false} UnicodeTokensAgree(s: string)
    requires NoSeparators(s)
    ensures UnicodeTokens(s) == Tokens(s)
    decreases |s|
  {
    if s != [] {
      if IsSpace(s[0]) {
        UnicodeTokensAgree(s[1..]);
      } else {
        assert !IsUnicodeSpace(s[0]);
        UnicodeWordAgrees(s);
        var w := Word(s);
        UnicodeTokensAgree(s[|w|..]);
      }
    }
  }

  /** The unit separator splits a `unicode` string but not a byte string. */
  lemma UnitSeparatorSplits()
    ensures UnicodeTokens("a" + [31 as char] + "b") == ["a", "b"]
    ensures Tokens("a" + [31 as char] + "b") == ["a" + [31 as char] + "b"]
  {
    var s := "a" + [31 as char] + "b";
    assert UnicodeWord(s) == "a" by {
      assert UnicodeWord(s[1..]) == [];
    }
    assert s[1..] == [31 as char] + "b";
    assert UnicodeTokens(s[1..]) == UnicodeTokens("b");
    assert UnicodeWord("b") == "b";
    assert UnicodeTokens("b") == ["b"] by {
      assert "b"[1..] == [];
    }
    assert Word(s) == s by {
      assert s[1..][1..] == "b";
      assert Word("b") == "b";
    }
    assert s[|s|..] == [];
  }

  lemma {:induction false} TokensAfterSpace(sp: string, rest: string)
    requires AllSpace(sp)
    ensures Tokens(sp + rest) == Tokens(rest)
    decreases |sp|
  {
    if sp == [] {
      assert sp + rest == rest;
    } else {
      assert (sp + rest)[1..] == sp[1..] + rest;
      TokensAfterSpace(sp[1..], rest);
    }
  }

  lemma {:induction false} WordOfJoin(w: string, rest: string)
    requires NoSpace(w)
    requires rest == [] || IsSpace(rest[0])
    ensures Word(w + rest) == w
    decreases |w|
  {
    if w != [] {
      assert (w + rest)[1..] == w[1..] + rest;
      WordOfJoin(w[1..], rest);
    }
  }

  /** A word followed by a whitespace separator is the first token. */
  lemma TokensOfWord(w: string, sep: string, rest: string)
    requires |w| > 0 && NoSpace(w)
    requires |sep| > 0 && AllSpace(sep)
    ensures Tokens(w + sep + rest) == [w] + Tokens(rest)
  {
    var s := w + sep + rest;
    assert s == w + (sep + rest);
    WordOfJoin(w, sep + rest);
    assert s[|w|..] == sep + rest;
    TokensAfterSpace(sep, rest);
  }

  /** A last word followed only by whitespace is the last token. */
  lemma TokensOfLastWord(w: string, sep: string)
    requires |w| > 0 && NoSpace(w) && AllSpace(sep)
    ensures Tokens(w + sep) == [w]
  {
    WordOfJoin(w, sep);
    assert (w + sep)[|w|..] == sep;
    TokensAfterSpace(sep, []);
    assert sep + [] == sep;
  }

  /** Number of occurrences of `c` in `s` (Python's `s.count(c)`). */
  function Count(s: string, c: char): nat {
    if s == [] then 0 else (if s[0] == c then 1 else 0) + Count(s[1..], c)
  }

  lemma {:induction false} CountAppend(a: string, b: string, c: char)
    ensures Count(a + b, c) == Count(a, c) + Count(b, c)
    decreases |a|
  {
    if a == [] {
      assert a + b == b;
    } else {
      assert (a + b)[1..] == a[1..] + b;
      CountAppend(a[1..], b, c);
    }
  }

  lemma {:induction false} CountAbsent(s: string, c: char)
    requires c !in s
    ensures Count(s, c) == 0
    decreases |s|
  {
    if s != [] {
      CountAbsent(s[1..], c);
    }
  }

  /** Python's `s.split(c)` with a one-character separator: the pieces
      between occurrences of `c`, empty pieces included. */
  function Split(s: string, c: char): (r: seq<string>)
    ensures |r| == Count(s, c) + 1
  {
    if s == [] then [""]
    else if s[0] == c then [""] + Split(s[1..], c)
    else
      var t := Split(s[1..], c);
      [[s[0]] + t[0]] + t[1..]
  }

  lemma {:induction false} SplitNoSeparator(s: string, c: char)
    requires c !in s
    ensures Split(s, c) == [s]
    decreases |s|
  {
    if s != [] {
      SplitNoSeparator(s[1..], c);
      assert [s[0]] + s[1..] == s;
    }
  }

  lemma {:induction false} SplitJoin(a: string, c: char, b: string)
    requires c !in a
    ensures Split(a + [c] + b, c) == [a] + Split(b, c)
    decreases |a|
  {
    if a == [] {
      assert a + [c] + b == [c] + b;
      assert ([c] + b)[1..] == b;
    } else {
      assert (a + [c] + b)[1..] == a[1..] + [c] + b;
      SplitJoin(a[1..], c, b);
      assert [a[0]] + a[1..] == a;
    }
  }

  /** Appending a separator and a piece without separators adds one last
      piece. */
  lemma {:induction false} SplitSnoc(s: string, c: char, t: string)
    requires c !in t
    ensures Split(s + [c] + t, c) == Split(s, c) + [t]
    decreases |s|
  {
    if s == [] {
      assert s + [c] + t == [c] + t;
      assert ([c] + t)[1..] == t;
      SplitNoSeparator(t, c);
    } else {
      assert (s + [c] + t)[1..] == s[1..] + [c] + t;
      SplitSnoc(s[1..], c, t);
    }
  }

  predicate StartsWith(s: string, p: string) {
    |p| <= |s| && s[..|p|] == p
  }

  /** Python's `s.find(c)`: the first index of `c`, or -1. */
  function Find(s: string, c: char): (k: int)
    ensures -1 <= k < |s|
    ensures k == -1 <==> c !in s
    ensures k >= 0 ==> s[k] == c && c !in s[..k]
  {
    if s == [] then -1
    else if s[0] == c then 0
    else
      var k := Find(s[1..], c);
      assert s[1..][..if k < 0 then 0 else k] == s[1..1 + if k < 0 then 0 else k];
      if k < 0 then -1 else k + 1
  }

  /** Python's slice `s[a:b]` for non-negative bounds: both bounds are
      clamped to the length, and an empty slice results when `b <= a`. */
  function Slice(s: string, a: nat, b: nat): (r: string)
    ensures a <= b <= |s| ==> r == s[a..b]
    ensures |r| <= |s|
  {
    var lo := if a < |s| then a else |s|;
    var hi := if b < |s| then b else |s|;
    if hi <= lo then "" else s[lo..hi]
  }

  function TrimLeft(s: string): (r: string)
    ensures |r| <= |s| && r == s[|s| - |r|..]
    ensures r == [] || !IsSpace(r[0])
    ensures AllSpace(s[..|s| - |r|])
  {
    if s != [] && IsSpace(s[0]) then
      var r := TrimLeft(s[1..]);
      assert s[..|s| - |r|] == [s[0]] + s[1..][..|s| - 1 - |r|];
      r
    else s
  }

  function TrimRight(s: string): (r: string)
    ensures |r| <= |s| && r == s[..|r|]
    ensures r == [] || !IsSpace(r[|r| - 1])
    ensures AllSpace(s[|r|..])
  {
    if s != [] && IsSpace(s[|s| - 1]) then
      var r := TrimRight(s[..|s| - 1]);
      assert s[|r|..] == s[..|s| - 1][|r|..] + [s[|s| - 1]];
      r
    else s
  }

  /** Python's `s.strip()`: `s` without leading and trailing whitespace. */
  function Strip(s: string): (r: string)
    ensures r == [] || (!IsSpace(r[0]) && !IsSpace(r[|r| - 1]))
    ensures exists i, j :: 0 <= i <= j <= |s| && r == s[i..j] && AllSpace(s[..i]) && AllSpace(s[j..])
  {
    var t := TrimLeft(s);
    var r := TrimRight(t);
    StripBounds(s, t, r);
    r
  }

  /** A prefix `r` of a suffix `t` of `s`, with whitespace before `t` and
      after `r`, sits in `s` between two runs of whitespace. */
  lemma StripBounds(s: string, t: string, r: string)
    requires |t| <= |s| && t == s[|s| - |t|..] && AllSpace(s[..|s| - |t|])
    requires |r| <= |t| && r == t[..|r|] && AllSpace(t[|r|..])
    ensures var i := |s| - |t|;
            0 <= i <= i + |r| <= |s| && r == s[i..i + |r|] && AllSpace(s[..i]) && AllSpace(s[i + |r|..])
  {
    var i := |s| - |t|;
    assert s[i..][..|r|] == s[i..i + |r|] && s[i..][|r|..] == s[i + |r|..];
  }

  /** Python's `s.replace(p, repl)`: every non-overlapping occurrence of `p`,
      scanning left to right, is replaced by `repl`. */
  function Replace(s: string, p: string, repl: string): string
    requires |p| > 0
    decreases |s|
  {
    if |s| < |p| then s
    else if s[..|p|] == p then repl + Replace(s[|p|..], p, repl)
    else [s[0]] + Replace(s[1..], p, repl)
  }

  /** Deleting a pattern never lengthens the text. */
  lemma {:induction false} DeleteShortens(s: string, p: string)
    requires |p| > 0
    ensures |Replace(s, p, "")| <= |s|
    decreases |s|
  {
    if |s| >= |p| {
      if s[..|p|] == p {
        DeleteShortens(s[|p|..], p);
      } else {
        DeleteShortens(s[1..], p);
      }
    }
  }

  /** Text that does not contain the first character of the pattern is
      left as it is. */
  lemma {:induction false} ReplaceAbsent(s: string, p: string, repl: string)
    requires |p| > 0 && p[0] !in s
    ensures Replace(s, p, repl) == s
    decreases |s|
  {
    if |s| >= |p| {
      assert s[0] != p[0];
      assert s[..|p|] != p;
      ReplaceAbsent(s[1..], p, repl);
    }
  }

  /** Python 2's `s.decode('ascii', errors='ignore')`: every character
      outside the 7-bit range is dropped. */
  function KeepAscii(s: string): (r: string)
    ensures |r| <= |s|
    ensures forall i :: 0 <= i < |r| ==> r[i] as int < 128
    ensures (forall i :: 0 <= i < |s| ==> s[i] as int < 128) ==> r == s
  {
    if s == [] then []
    else if s[0] as int < 128 then [s[0]] + KeepAscii(s[1..])
    else KeepAscii(s[1..])
  }

  lemma {:induction false} KeepAsciiSubset(s: string, c: char)
    requires c !in s
    ensures c !in KeepAscii(s)
    decreases |s|
  {
    if s != [] {
      KeepAsciiSubset(s[1..], c);
    }
  }
}
