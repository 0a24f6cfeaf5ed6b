/**
 * The JavaScript string built-ins the handle checker relies on:
 * `String.prototype.trim`, the regular-expression class `\s`,
 * `split('\n')` and `toLowerCase` (over ASCII, the only letters that reach it).
 */
module Text {

  /** ECMAScript WhiteSpace and LineTerminator: what `trim` strips and `\s` matches. */
  predicate IsWhitespace(c: char) {
    || c == '\t' || c == '\n' || c == '\U{B}' || c == '\U{C}' || c == '\r' || c == ' '
    || c == '\U{A0}' || c == '\U{1680}' || ('\U{2000}' <= c <= '\U{200A}')
    || c == '\U{2028}' || c == '\U{2029}' || c == '\U{202F}' || c == '\U{205F}'
    || c == '\U{3000}' || c == '\U{FEFF}'
  }

  predicate AllWhitespace(s: string) {
    forall i :: 0 <= i < |s| ==> IsWhitespace(s[i])
  }

  predicate HasNonWhitespace(s: string) {
    exists i :: 0 <= i < |s| && !IsWhitespace(s[i])
  }

  /** `s.trim()`: white space removed from both ends. */
  function Trim(s: string): (r: string)
    ensures |r| <= |s|
    ensures r != [] ==> !IsWhitespace(r[0]) && !IsWhitespace(r[|r| - 1])
  {
    if |s| > 0 && IsWhitespace(s[0]) then Trim(s[1..])
    else if |s| > 0 && IsWhitespace(s[|s| - 1]) then Trim(s[..|s| - 1])
    else s
  }

  /** `t` is the run of `s` starting at `start`, with only white space before and after it. */
  predicate TrimmedAt(s: string, t: string, start: nat) {
    && start + |t| <= |s|
    && (forall i :: 0 <= i < |t| ==> t[i] == s[start + i])
    && (forall i :: 0 <= i < start ==> IsWhitespace(s[i]))
    && (forall i :: start + |t| <= i < |s| ==> IsWhitespace(s[i]))
  }

  lemma TrimmedAtDropFirst(s: string, t: string, k: nat)
    requires |s| > 0 && IsWhitespace(s[0])
    requires TrimmedAt(s[1..], t, k)
    ensures TrimmedAt(s, t, k + 1)
  {
    var rest := s[1..];
    forall i | 0 <= i < |t| ensures t[i] == s[k + 1 + i] {
      assert rest[k + i] == s[k + 1 + i];
    }
    forall i | 0 < i < k + 1 ensures IsWhitespace(s[i]) {
      assert rest[i - 1] == s[i];
    }
    forall i | k + 1 + |t| <= i < |s| ensures IsWhitespace(s[i]) {
      assert rest[i - 1] == s[i];
    }
  }

  lemma TrimmedAtDropLast(s: string, t: string, k: nat)
    requires |s| > 0 && !IsWhitespace(s[0]) && IsWhitespace(s[|s| - 1])
    requires TrimmedAt(s[..|s| - 1], t, k)
    ensures TrimmedAt(s, t, 0)
  {
    var init := s[..|s| - 1];
    assert k == 0 by {
      assert init[0] == s[0];
    }
    forall i | 0 <= i < |t| ensures t[i] == s[i] {
      assert init[i] == s[i];
    }
    forall i | |t| <= i < |s| - 1 ensures IsWhitespace(s[i]) {
      assert init[i] == s[i];
    }
  }

  /** Where the trimmed string sits in `s`. */
  lemma {:induction false} TrimBounds(s: string) returns (start: nat)
    ensures TrimmedAt(s, Trim(s), start)
  {
    if |s| > 0 && IsWhitespace(s[0]) {
      var k := TrimBounds(s[1..]);
      TrimmedAtDropFirst(s, Trim(s), k);
      start := k + 1;
    } else if |s| > 0 && IsWhitespace(s[|s| - 1]) {
      var k := TrimBounds(s[..|s| - 1]);
      TrimmedAtDropLast(s, Trim(s), k);
      start := 0;
    } else {
      start := 0;
    }
  }

  /** Trimming yields the empty string exactly for the all-white-space strings. */
  lemma TrimEmptyIff(s: string)
    ensures Trim(s) == [] <==> AllWhitespace(s)
    ensures Trim(s) != [] <==> HasNonWhitespace(s)
  {
    var k := TrimBounds(s);
    if Trim(s) != [] {
      assert !IsWhitespace(s[k]);
    }
  }

  /** A string that does not begin or end with white space is its own trim. */
  lemma TrimUnchanged(s: string)
    requires s != [] ==> !IsWhitespace(s[0]) && !IsWhitespace(s[|s| - 1])
    ensures Trim(s) == s
  {
  }

  predicate NoWhitespace(s: string) {
    forall i :: 0 <= i < |s| ==> !IsWhitespace(s[i])
  }

  /**
   * `s.replace(/\s+/g, '')`: every white-space character removed, every other one kept.
   * With `RemoveWhitespaceAppend` and `RemoveWhitespaceOfAllWhitespace` this fixes the
   * result on every input: the non-white-space characters of `s`, in order.
   */
  function RemoveWhitespace(s: string): (r: string)
    ensures |r| <= |s|
    ensures NoWhitespace(r)
    ensures NoWhitespace(s) ==> r == s
  {
    if s == [] then []
    else if IsWhitespace(s[0]) then RemoveWhitespace(s[1..])
    else [s[0]] + RemoveWhitespace(s[1..])
  }

  lemma {:induction false} RemoveWhitespaceAppend(s: string, t: string)
    ensures RemoveWhitespace(s + t) == RemoveWhitespace(s) + RemoveWhitespace(t)
  {
    if s != [] {
      assert (s + t)[1..] == s[1..] + t;
      RemoveWhitespaceAppend(s[1..], t);
    } else {
      assert s + t == t;
    }
  }

  lemma {:induction false} RemoveWhitespaceOfAllWhitespace(s: string)
    requires AllWhitespace(s)
    ensures RemoveWhitespace(s) == []
  {
    if s != [] {
      RemoveWhitespaceOfAllWhitespace(s[1..]);
    }
  }

  /** `s` is white space, then its trim, then white space. */
  lemma TrimDecompose(s: string) returns (head: string, tail: string)
    ensures s == head + Trim(s) + tail
    ensures AllWhitespace(head) && AllWhitespace(tail)
  {
    var k := TrimBounds(s);
    var t := Trim(s);
    head, tail := s[..k], s[k + |t|..];
    forall i | 0 <= i < |s| ensures (head + t + tail)[i] == s[i] {
      if i < k {
      } else if i < k + |t| {
        assert (head + t + tail)[i] == t[i - k];
      } else {
        assert (head + t + tail)[i] == tail[i - k - |t|];
      }
    }
  }

  /** Removing the white space after trimming is the same as removing it directly. */
  lemma RemoveWhitespaceOfTrim(s: string)
    ensures RemoveWhitespace(Trim(s)) == RemoveWhitespace(s)
  {
    var head, tail := TrimDecompose(s);
    var t := Trim(s);
    RemoveWhitespaceAppend(head + t, tail);
    RemoveWhitespaceAppend(head, t);
    RemoveWhitespaceOfAllWhitespace(head);
    RemoveWhitespaceOfAllWhitespace(tail);
  }

  /** Removing white space keeps at least one character exactly when there was a non-white-space one. */
  lemma {:induction false} RemoveWhitespaceEmptyIff(s: string)
    ensures RemoveWhitespace(s) == [] <==> AllWhitespace(s)
  {
    if s != [] {
      RemoveWhitespaceEmptyIff(s[1..]);
      if AllWhitespace(s[1..]) && IsWhitespace(s[0]) {
        forall i | 0 <= i < |s| ensures IsWhitespace(s[i]) {
          if i > 0 { assert s[i] == s[1..][i - 1]; }
        }
      }
      if AllWhitespace(s) {
        assert forall i :: 0 <= i < |s| - 1 ==> s[1..][i] == s[i + 1];
      }
    }
  }

  /** The characters of `s` that are not white space, at any position. */
  lemma {:induction false} RemoveWhitespaceKeeps(s: string, i: nat)
    requires i < |s| && !IsWhitespace(s[i])
    ensures s[i] in RemoveWhitespace(s)
  {
    if i > 0 {
      assert s[1..][i - 1] == s[i];
      RemoveWhitespaceKeeps(s[1..], i - 1);
    }
  }

  lemma RemoveWhitespaceExample()
    ensures RemoveWhitespace(" a\tb ") == "ab"
  {
  }

  /**
   * `s.length` in JavaScript: the number of UTF-16 code units, so a character
   * above U+FFFF (a surrogate pair) counts twice.
   */
  function Utf16Length(s: string): (n: nat)
    ensures |s| <= n <= 2 * |s|
    ensures n == 0 <==> s == []
    ensures (forall i :: 0 <= i < |s| ==> s[i] <= '\U{FFFF}') ==> n == |s|
  {
    if s == [] then 0
    else (if s[0] <= '\U{FFFF}' then 1 else 2) + Utf16Length(s[1..])
  }

  /** One character is one code unit, or two when it lies above U+FFFF. */
  lemma Utf16LengthOne(c: char)
    ensures Utf16Length([c]) == if c <= '\U{FFFF}' then 1 else 2
  {
    assert [c][1..] == [];
  }

  /**
   * The length of a concatenation is the sum of the lengths. With
   * `Utf16LengthOne` this fixes the length of every string: the sum over its
   * characters.
   */
  lemma {:induction false} Utf16LengthAppend(a: string, b: string)
    ensures Utf16Length(a + b) == Utf16Length(a) + Utf16Length(b)
  {
    if a == [] {
      assert a + b == b;
    } else {
      assert (a + b)[1..] == a[1..] + b;
      Utf16LengthAppend(a[1..], b);
    }
  }

  lemma Utf16LengthExample()
    ensures Utf16Length("a\U{1F600}") == 3
  {
  }

  predicate IsAsciiUpper(c: char) { 'A' <= c <= 'Z' }

  /** `toLowerCase` on one ASCII character; every other character is left alone. */
  function LowerChar(c: char): (r: char)
    ensures IsAsciiUpper(c) ==> r as int == c as int + 32
    ensures !IsAsciiUpper(c) ==> r == c
  {
    if IsAsciiUpper(c) then (c as int + 32) as char else c
  }

  /** `s.toLowerCase()` over ASCII letters. */
  function ToLowerAscii(s: string): (r: string)
    ensures |r| == |s|
    ensures forall i :: 0 <= i < |s| ==> r[i] == LowerChar(s[i])
  {
    seq(|s|, i requires 0 <= i < |s| => LowerChar(s[i]))
  }

  /** Lower-casing twice is lower-casing once. */
  lemma ToLowerAsciiIdempotent(s: string)
    ensures ToLowerAscii(ToLowerAscii(s)) == ToLowerAscii(s)
  {
  }

  /** `s.split(sep)`: the pieces between separators, in order; never an empty list. */
  function Split(s: string, sep: char): (r: seq<string>)
    ensures |r| >= 1
    ensures forall i :: 0 <= i < |r| ==> sep !in r[i]
  {
    if s == [] then [[]]
    else
      var rest := Split(s[1..], sep);
      if s[0] == sep then [[]] + rest else [[s[0]] + rest[0]] + rest[1..]
  }

  /** `pieces.join(sep)`. */
  function Join(pieces: seq<string>, sep: char): string
  {
    if |pieces| <= 1 then (if pieces == [] then [] else pieces[0])
    else pieces[0] + [sep] + Join(pieces[1..], sep)
  }

  /** Splitting and joining on the same separator gives the string back. */
  lemma {:induction false} JoinSplit(s: string, sep: char)
    ensures Join(Split(s, sep), sep) == s
  {
    if s != [] {
      var rest := Split(s[1..], sep);
      JoinSplit(s[1..], sep);
      if s[0] == sep {
        assert ([[]] + rest)[1..] == rest;
      } else {
        var r := [[s[0]] + rest[0]] + rest[1..];
        if |rest| > 1 {
          assert r[1..] == rest[1..];
          assert Join(rest, sep) == rest[0] + [sep] + Join(rest[1..], sep);
        }
      }
    }
  }

  /** A string without the separator is a single piece. */
  lemma {:induction false} SplitWithoutSeparator(s: string, sep: char)
    requires sep !in s
    ensures Split(s, sep) == [s]
  {
    if s != [] {
      SplitWithoutSeparator(s[1..], sep);
      assert s[0] != sep;
      assert [s[0]] + s[1..] == s;
    }
  }
}
