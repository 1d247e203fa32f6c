/** The Python `str` operations the mail script relies on, with Python's semantics. */
module Text {
  import opened Seqs

  type String = seq<char>

  // ---------------------------------------------------------------------------
  // Case mapping: `str.lower()`
  // ---------------------------------------------------------------------------

  /** Upper-case letters whose lower-case form the model knows: ASCII, Latin-1 and basic Cyrillic. */
  predicate IsUpper(c: char) {
    ('A' <= c <= 'Z') || ('\U{00C0}' <= c <= '\U{00DE}' && c != '\U{00D7}') || ('\U{0400}' <= c <= '\U{042F}')
  }

  /** The lower-case letters of the same three blocks. */
  predicate IsLower(c: char) {
    ('a' <= c <= 'z') || ('\U{00E0}' <= c <= '\U{00FE}' && c != '\U{00F7}') || ('\U{0430}' <= c <= '\U{045F}')
  }

  function LowerChar(c: char): (d: char)
    ensures IsUpper(c) ==> IsLower(d)
    ensures !IsUpper(c) ==> d == c
    ensures !IsUpper(d)
  {
    if '\U{0400}' <= c <= '\U{040F}' then (c as int + 0x50) as char
    else if IsUpper(c) then (c as int + 0x20) as char
    else c
  }

  function Lower(s: String): (r: String)
    ensures |r| == |s|
    ensures forall i :: 0 <= i < |s| ==> r[i] == LowerChar(s[i])
  {
    if s == [] then [] else [LowerChar(s[0])] + Lower(s[1..])
  }

  /** Lower-casing twice is lower-casing once. */
  lemma LowerIdempotent(s: String)
    ensures Lower(Lower(s)) == Lower(s)
  {
    forall i | 0 <= i < |s|
      ensures Lower(Lower(s))[i] == Lower(s)[i]
    {
      assert !IsUpper(LowerChar(s[i]));
    }
  }

  lemma LowerAppend(a: String, b: String)
    ensures Lower(a + b) == Lower(a) + Lower(b)
  {
    forall i | 0 <= i < |a + b| ensures Lower(a + b)[i] == (Lower(a) + Lower(b))[i] {
      if i < |a| {
        assert (a + b)[i] == a[i];
      } else {
        assert (a + b)[i] == b[i - |a|];
      }
    }
  }

  /** Lower-casing leaves every character that is not a letter in place, so such a character
      occurs in `Lower(s)` exactly when it occurs in `s`. */
  lemma LowerKeepsNonLetter(s: String, c: char)
    requires !IsUpper(c) && !IsLower(c)
    ensures c in Lower(s) <==> c in s
  {
    if c in Lower(s) {
      var i :| 0 <= i < |s| && Lower(s)[i] == c;
      assert s[i] == c;
    }
    if c in s {
      var i :| 0 <= i < |s| && s[i] == c;
      assert Lower(s)[i] == c;
    }
  }

  // ---------------------------------------------------------------------------
  // Prefix and suffix tests: `str.startswith`, `str.endswith`
  // ---------------------------------------------------------------------------

  predicate StartsWith(s: String, prefix: String): (b: bool)
    ensures b <==> |prefix| <= |s| && forall i {:trigger s[i], prefix[i]} :: 0 <= i < |prefix| ==> s[i] == prefix[i]
  {
    |prefix| <= |s| && s[..|prefix|] == prefix
  }

  predicate EndsWith(s: String, suffix: String): (b: bool)
    ensures b <==> |suffix| <= |s| && forall i {:trigger suffix[i]} :: 0 <= i < |suffix| ==> s[|s| - |suffix| + i] == suffix[i]
  {
    |suffix| <= |s| && s[|s| - |suffix|..] == suffix
  }

  lemma StartsWithConcat(a: String, b: String)
    ensures StartsWith(a + b, a)
  {
    assert (a + b)[..|a|] == a;
  }

  lemma EndsWithConcat(a: String, b: String)
    ensures EndsWith(a + b, b)
  {
    assert (a + b)[|a|..] == b;
  }

  /** A suffix of `t` is a suffix of anything that ends with `t`. */
  lemma EndsWithLonger(s: String, t: String, b: String)
    requires EndsWith(t, b)
    ensures EndsWith(s + t, b)
  {
    assert (s + t)[|s + t| - |b|..] == t[|t| - |b|..];
  }

  // ---------------------------------------------------------------------------
  // White space: `str.strip()`
  // ---------------------------------------------------------------------------

  /** The characters for which Python's `str.isspace()` holds. */
  predicate IsSpace(c: char) {
    c == ' ' || ('\t' <= c <= '\r') || ('\U{001C}' <= c <= '\U{001F}') || c == '\U{0085}' || c == '\U{00A0}'
    || c == '\U{1680}' || ('\U{2000}' <= c <= '\U{200A}') || c == '\U{2028}' || c == '\U{2029}'
    || c == '\U{202F}' || c == '\U{205F}' || c == '\U{3000}'
  }

  predicate AllSpace(s: String) {
    forall i :: 0 <= i < |s| ==> IsSpace(s[i])
  }

  /** Neither end of the string is white space. */
  predicate Trimmed(s: String) {
    s == [] || (!IsSpace(s[0]) && !IsSpace(s[|s| - 1]))
  }

  /** The length of the white-space run at the start of `s`. */
  function LeadingSpaces(s: String): (n: nat)
    ensures n <= |s|
    ensures forall i :: 0 <= i < n ==> IsSpace(s[i])
    ensures n < |s| ==> !IsSpace(s[n])
  {
    if s != [] && IsSpace(s[0]) then 1 + LeadingSpaces(s[1..]) else 0
  }

  /** The length of the white-space run at the end of `s`. */
  function TrailingSpaces(s: String): (n: nat)
    ensures n <= |s|
    ensures forall i :: |s| - n <= i < |s| ==> IsSpace(s[i])
    ensures n < |s| ==> !IsSpace(s[|s| - 1 - n])
  {
    if s != [] && IsSpace(s[|s| - 1]) then 1 + TrailingSpaces(s[..|s| - 1]) else 0
  }

  /** Where the strip of `s` ends: before the trailing white space, or right after the
      leading white space when `s` is all white space. */
  function StripEnd(s: String): (e: nat)
    ensures LeadingSpaces(s) <= e <= |s|
    ensures forall i :: e <= i < |s| ==> IsSpace(s[i])
    ensures LeadingSpaces(s) < e ==> !IsSpace(s[e - 1])
  {
    if LeadingSpaces(s) == |s| then |s| else |s| - TrailingSpaces(s)
  }

  /** `s.strip()`: `s` without its leading and trailing white space. Neither end of the
      result is white space, and it is empty exactly when `s` is all white space. */
  function Strip(s: String): (r: String)
    ensures Trimmed(r)
    ensures |r| <= |s|
    ensures r == [] <==> AllSpace(s)
  {
    var k, e := LeadingSpaces(s), StripEnd(s);
    assert k < e ==> !AllSpace(s);
    s[k..e]
  }

  /** The strip is the part of `s` right after its leading white space, and everything
      around it is white space. */
  lemma StripInfix(s: String)
    ensures var k := LeadingSpaces(s);
      && k + |Strip(s)| <= |s| && Strip(s) == s[k..k + |Strip(s)|]
      && AllSpace(s[..k]) && AllSpace(s[k + |Strip(s)|..])
  {
    var k, e := LeadingSpaces(s), StripEnd(s);
    assert Strip(s) == s[k..e];
    SpaceAround(s, k, e, Strip(s));
  }

  /** The slicing step of `StripInfix`: a slice with white space on both sides. */
  lemma SpaceAround(s: String, k: nat, e: nat, r: String)
    requires k <= e <= |s| && r == s[k..e]
    requires forall i :: 0 <= i < k ==> IsSpace(s[i])
    requires forall i :: e <= i < |s| ==> IsSpace(s[i])
    ensures k + |r| <= |s| && r == s[k..k + |r|]
    ensures AllSpace(s[..k]) && AllSpace(s[k + |r|..])
  {
  }

  /** Stripping adds no character: one absent from `s` is absent from its strip. */
  lemma StripKeepsOut(s: String, c: char)
    requires c !in s
    ensures c !in Strip(s)
  {
    assert Strip(s) == s[LeadingSpaces(s)..StripEnd(s)];
  }

  /** A string with no white space at either end is its own strip. */
  lemma StripTrimmed(s: String)
    requires Trimmed(s)
    ensures Strip(s) == s
  {
    if s != [] {
      assert LeadingSpaces(s) == 0;
      assert TrailingSpaces(s) == 0;
    }
  }

  // ---------------------------------------------------------------------------
  // Replacement: `s.replace(old, new)` for a single character
  // ---------------------------------------------------------------------------

  function ReplaceChar(s: String, from: char, to: char): (r: String)
    ensures |r| == |s|
    ensures forall i :: 0 <= i < |s| ==> r[i] == if s[i] == from then to else s[i]
  {
    if s == [] then [] else [if s[0] == from then to else s[0]] + ReplaceChar(s[1..], from, to)
  }

  // ---------------------------------------------------------------------------
  // Splitting: `s.split(sep)` for a one-character separator, and its inverse `sep.join(parts)`
  // ---------------------------------------------------------------------------

  /** `s.split(sep)`: the pieces between separators, at least one, none containing `sep`;
      there is more than one exactly when `sep` occurs in `s`. */
  function Split(s: String, sep: char): (parts: seq<String>)
    ensures |parts| >= 1
    ensures forall k :: 0 <= k < |parts| ==> sep !in parts[k]
    ensures |parts| >= 2 <==> sep in s
    ensures sep in s ==> parts[0] == s[..IndexOf(s, sep)]
    decreases |s|
  {
    if sep !in s then [s]
    else
      var i := IndexOf(s, sep);
      [s[..i]] + Split(s[i + 1..], sep)
  }

  function Join(parts: seq<String>, sep: char): (s: String)
    requires |parts| >= 1
  {
    if |parts| == 1 then parts[0] else parts[0] + [sep] + Join(parts[1..], sep)
  }

  lemma {:induction false} JoinSplit(s: String, sep: char)
    ensures Join(Split(s, sep), sep) == s
    decreases |s|
  {
    if sep in s {
      var i := IndexOf(s, sep);
      JoinSplit(s[i + 1..], sep);
      assert s == s[..i] + [sep] + s[i + 1..];
    }
  }

  /** The first separator of `prefix + [sep] + rest` is the one after `prefix`. */
  lemma IndexAfterPrefix(prefix: String, sep: char, rest: String)
    requires sep !in prefix
    ensures sep in prefix + [sep] + rest
    ensures IndexOf(prefix + [sep] + rest, sep) == |prefix|
  {
    var s := prefix + [sep] + rest;
    assert s[|prefix|] == sep;
  }

  lemma {:induction false} SplitJoin(parts: seq<String>, sep: char)
    requires |parts| >= 1
    requires forall k :: 0 <= k < |parts| ==> sep !in parts[k]
    ensures Split(Join(parts, sep), sep) == parts
  {
    if |parts| > 1 {
      var tail := parts[1..];
      assert forall k :: 0 <= k < |tail| ==> tail[k] == parts[k + 1];
      SplitJoin(tail, sep);
      var rest := Join(tail, sep);
      IndexAfterPrefix(parts[0], sep, rest);
      var s := parts[0] + [sep] + rest;
      assert Join(parts, sep) == s;
      assert s[..|parts[0]|] == parts[0];
      assert s[|parts[0]| + 1..] == rest;
      assert Split(s, sep) == [parts[0]] + Split(rest, sep);
      HeadTail(parts);
    }
  }

  lemma HeadTail<T>(s: seq<T>)
    requires s != []
    ensures s == [s[0]] + s[1..]
  {
  }

  /** The text after the first `sep` up to the next `sep`, or to the end when there is none. */
  function Between(s: String, sep: char): (r: String)
    requires sep in s
    ensures sep !in r
  {
    var rest := s[IndexOf(s, sep) + 1..];
    if sep in rest then rest[..IndexOf(rest, sep)] else rest
  }

  /** `s.split(sep)[1]` is the text between the first and the second separator. */
  lemma SplitSecond(s: String, sep: char)
    requires sep in s
    ensures |Split(s, sep)| >= 2 && Split(s, sep)[1] == Between(s, sep)
  {
    var i := IndexOf(s, sep);
    var rest := s[i + 1..];
    var parts := Split(s, sep);
    assert parts == [s[..i]] + Split(rest, sep);
    assert parts[1] == Split(rest, sep)[0];
  }

  /** Every occurrence of `sep` in `s` is followed by `p`. */
  predicate SepsFollowedBy(s: String, sep: char, p: String) {
    forall i :: 0 <= i < |s| && s[i] == sep ==> StartsWith(s[i + 1..], p)
  }

  lemma PrefixKeepsStart(s: String, p: String, i: nat)
    requires StartsWith(s, p) && |p| <= i <= |s|
    ensures StartsWith(s[..i], p)
  {
    forall t | 0 <= t < |p| ensures s[..i][t] == p[t] {
      assert s[t] == p[t];
    }
  }

  lemma SuffixKeepsSeps(s: String, sep: char, p: String, a: nat)
    requires a <= |s| && SepsFollowedBy(s, sep, p)
    ensures SepsFollowedBy(s[a..], sep, p)
  {
    var rest := s[a..];
    forall j | 0 <= j < |rest| && rest[j] == sep
      ensures StartsWith(rest[j + 1..], p)
    {
      var u := s[a + j + 1..];
      assert s[a + j] == sep;
      assert StartsWith(u, p);
      forall t | 0 <= t < |p| ensures rest[j + 1..][t] == p[t] {
        assert u[t] == p[t];
      }
    }
  }

  /** When `s` starts with `p` and every separator in `s` is followed by `p`, every piece
      of `s.split(sep)` starts with `p`. */
  lemma {:induction false} SplitPiecesStartWith(s: String, sep: char, p: String)
    requires sep !in p
    requires StartsWith(s, p)
    requires SepsFollowedBy(s, sep, p)
    ensures forall k :: 0 <= k < |Split(s, sep)| ==> StartsWith(Split(s, sep)[k], p)
    decreases |s|
  {
    if sep in s {
      var i := IndexOf(s, sep);
      forall t | 0 <= t < |p| ensures s[t] != sep {
        assert s[t] == p[t] && p[t] in p;
      }
      PrefixKeepsStart(s, p, i);
      SuffixKeepsSeps(s, sep, p, i + 1);
      SplitPiecesStartWith(s[i + 1..], sep, p);
      var parts := Split(s, sep);
      assert parts == [s[..i]] + Split(s[i + 1..], sep);
    }
  }
}
