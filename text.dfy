/** The Python string operations the responder and the contact directory rely on. */
module Text {

  /** `c.isspace()`: the characters Python's `str.strip()` removes. */
  predicate IsSpace(c: char) {
    || '\t' <= c <= '\r'
    || '\U{1C}' <= c <= ' '
    || c == '\U{85}' || c == '\U{A0}' || c == '\U{1680}'
    || '\U{2000}' <= c <= '\U{200A}'
    || c == '\U{2028}' || c == '\U{2029}' || c == '\U{202F}' || c == '\U{205F}' || c == '\U{3000}'
  }

  /** The number of whitespace characters at the front of s. */
  function LeadingSpaces(s: string): (n: nat)
    ensures n <= |s|
    ensures forall k :: 0 <= k < n ==> IsSpace(s[k])
    ensures n < |s| ==> !IsSpace(s[n])
  {
    if s == [] || !IsSpace(s[0]) then 0 else 1 + LeadingSpaces(s[1..])
  }

  /** The number of whitespace characters at the end of s. */
  function TrailingSpaces(s: string): (n: nat)
    ensures n <= |s|
    ensures forall k :: |s| - n <= k < |s| ==> IsSpace(s[k])
    ensures n < |s| ==> !IsSpace(s[|s| - 1 - n])
  {
    if s == [] || !IsSpace(s[|s| - 1]) then 0 else 1 + TrailingSpaces(s[..|s| - 1])
  }

  /**
   * `s.strip()`: the slice of s left after removing whitespace from both ends; everything
   * removed is whitespace and the slice neither starts nor ends with whitespace.
   */
  function Strip(s: string): (r: string)
    ensures exists i, j :: 0 <= i <= j <= |s| && r == s[i..j]
                           && (forall k :: 0 <= k < i ==> IsSpace(s[k]))
                           && (forall k :: j <= k < |s| ==> IsSpace(s[k]))
    ensures r != [] ==> !IsSpace(r[0]) && !IsSpace(r[|r| - 1])
  {
    var i := LeadingSpaces(s);
    var t := s[i..];
    var j := i + |t| - TrailingSpaces(t);
    assert t[..|t| - TrailingSpaces(t)] == s[i..j];
    s[i..j]
  }

  /** Text without surrounding whitespace is left as it is, so stripping twice changes nothing more. */
  lemma StripIdempotent(s: string)
    ensures s == [] || (!IsSpace(s[0]) && !IsSpace(s[|s| - 1])) ==> Strip(s) == s
    ensures Strip(Strip(s)) == Strip(s)
  {
    var t := Strip(s);
    assert LeadingSpaces(t) == 0;
    assert t[0..] == t;
    assert TrailingSpaces(t) == 0;
  }

  /** ASCII lower-casing of one character. */
  function LowerChar(c: char): char {
    if 'A' <= c <= 'Z' then (c as int + 32) as char else c
  }

  /** `s.lower()`, restricted to ASCII letters. */
  function Lower(s: string): (r: string)
    ensures |r| == |s|
    ensures forall i :: 0 <= i < |s| ==> r[i] == LowerChar(s[i])
  {
    if s == [] then [] else [LowerChar(s[0])] + Lower(s[1..])
  }

  /** Lower-cased text holds no upper-case ASCII letter, and lower-casing it again changes nothing. */
  lemma LowerIdempotent(s: string)
    ensures forall i :: 0 <= i < |Lower(s)| ==> !('A' <= Lower(s)[i] <= 'Z')
    ensures Lower(Lower(s)) == Lower(s)
  {
  }

  /** `s.split(' ')`: the pieces between single spaces, empty pieces included. */
  function Split(s: string): (r: seq<string>)
    ensures |r| >= 1
    ensures forall k :: 0 <= k < |r| ==> ' ' !in r[k]
  {
    if s == [] then [""]
    else
      var rest := Split(s[1..]);
      if s[0] == ' ' then [""] + rest else [[s[0]] + rest[0]] + rest[1..]
  }

  /** `' '.join(words)`. */
  function Join(words: seq<string>): string
    requires |words| >= 1
  {
    if |words| == 1 then words[0] else words[0] + " " + Join(words[1..])
  }

  /** Joining the pieces with single spaces gives the text back. */
  lemma {:induction false} JoinSplit(s: string)
    ensures Join(Split(s)) == s
  {
    if s != [] {
      var rest := Split(s[1..]);
      JoinSplit(s[1..]);
      if s[0] == ' ' {
        assert Split(s) == [""] + rest;
        assert (([""] + rest)[1..]) == rest;
      } else {
        var w := [[s[0]] + rest[0]] + rest[1..];
        assert Split(s) == w;
        if |rest| == 1 {
          assert Join(w) == [s[0]] + rest[0];
        } else {
          assert w[1..] == rest[1..];
          assert Join(rest) == rest[0] + " " + Join(rest[1..]);
          assert Join(w) == [s[0]] + rest[0] + " " + Join(rest[1..]);
        }
        assert [s[0]] + s[1..] == s;
      }
    }
  }

  /** Splitting a space-joined list of space-free words gives the words back. */
  lemma {:induction false} SplitJoin(words: seq<string>)
    requires |words| >= 1
    requires forall k :: 0 <= k < |words| ==> ' ' !in words[k]
    ensures Split(Join(words)) == words
  {
    if |words| == 1 {
      SplitWord(words[0], "", []);
      assert words[0] + "" == words[0] && words == [words[0]];
    } else {
      SplitJoin(words[1..]);
      var tail := " " + Join(words[1..]);
      assert Split(tail) == [""] + words[1..];
      assert words[0] + " " + Join(words[1..]) == words[0] + tail;
      SplitWord(words[0], tail, words[1..]);
      assert [words[0]] + words[1..] == words;
    }
  }

  /** A space-free word in front of text that splits into "" and more pieces extends the first piece. */
  lemma {:induction false} SplitWord(w: string, tail: string, more: seq<string>)
    requires ' ' !in w
    requires Split(tail) == [""] + more
    ensures Split(w + tail) == [w] + more
  {
    if w != [] {
      assert (w + tail)[1..] == w[1..] + tail;
      SplitWord(w[1..], tail, more);
      assert [w[0]] + w[1..] == w;
    } else {
      assert w + tail == tail;
    }
  }

  /** Python's `a < b` on strings: lexicographic by code point, a proper prefix coming first. */
  predicate Precedes(a: string, b: string) {
    if b == [] then false
    else if a == [] then true
    else if a[0] != b[0] then a[0] < b[0]
    else Precedes(a[1..], b[1..])
  }

  lemma {:induction false} PrecedesIrreflexive(a: string)
    ensures !Precedes(a, a)
  {
    if a != [] {
      PrecedesIrreflexive(a[1..]);
    }
  }

  lemma {:induction false} PrecedesTransitive(a: string, b: string, c: string)
    requires Precedes(a, b) && Precedes(b, c)
    ensures Precedes(a, c)
  {
    if a != [] && a[0] == b[0] && b[0] == c[0] {
      PrecedesTransitive(a[1..], b[1..], c[1..]);
    }
  }

  /** Any two different strings are ordered one way or the other. */
  lemma {:induction false} PrecedesTotal(a: string, b: string)
    ensures a == b || Precedes(a, b) || Precedes(b, a)
  {
    if a != [] && b != [] && a[0] == b[0] {
      PrecedesTotal(a[1..], b[1..]);
      if a[1..] == b[1..] {
        assert a == [a[0]] + a[1..] && b == [b[0]] + b[1..];
      }
    }
  }

  /** Not-after is transitive: a <= b and b <= c give a <= c. */
  lemma NotAfterTransitive(a: string, b: string, c: string)
    requires !Precedes(b, a) && !Precedes(c, b)
    ensures !Precedes(c, a)
  {
    PrecedesTotal(a, b);
    PrecedesTotal(b, c);
    if a != b && b != c {
      PrecedesTransitive(a, b, c);
      if Precedes(c, a) {
        PrecedesTransitive(c, a, b);
      }
    } else if a == b {
      assert !Precedes(c, b);
    } else {
      assert !Precedes(b, a);
    }
  }

  /** No string precedes another and also follows it. */
  lemma PrecedesAsymmetric(a: string, b: string)
    ensures !(Precedes(a, b) && Precedes(b, a))
  {
    if Precedes(a, b) && Precedes(b, a) {
      PrecedesTransitive(a, b, a);
      PrecedesIrreflexive(a);
    }
  }
}
