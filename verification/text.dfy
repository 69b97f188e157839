/** Characters, trimming, splitting and case-insensitive comparison with the meaning
    JavaScript gives them, over Dafny strings of Unicode scalar values. */
module Text {

  /** The characters `\s` matches in a JavaScript regular expression (WhiteSpace and
      LineTerminator); `String.prototype.trim` strips exactly the same set. */
  const WhiteSpace: set<char> := {
    '\t', '\n', '\U{000B}', '\U{000C}', '\r', ' ', '\U{00A0}', '\U{1680}',
    '\U{2000}', '\U{2001}', '\U{2002}', '\U{2003}', '\U{2004}', '\U{2005}', '\U{2006}',
    '\U{2007}', '\U{2008}', '\U{2009}', '\U{200A}',
    '\U{2028}', '\U{2029}', '\U{202F}', '\U{205F}', '\U{3000}', '\U{FEFF}'
  }

  predicate IsSpace(c: char) {
    c in WhiteSpace
  }

  /** `\d`: an ASCII decimal digit. */
  predicate IsDigit(c: char) {
    '0' <= c <= '9'
  }

  /** `\w`: an ASCII letter, digit or underscore (also under the `i` flag, without `u`). */
  predicate IsWordChar(c: char) {
    'a' <= c <= 'z' || 'A' <= c <= 'Z' || IsDigit(c) || c == '_'
  }

  /** A character of a numeric literal as the source's patterns capture it: `[\d.,]`. */
  predicate IsNumericChar(c: char) {
    IsDigit(c) || c == '.' || c == ','
  }

  predicate AllSpace(s: string) {
    forall c | c in s :: IsSpace(c)
  }

  predicate DigitText(s: string) {
    forall c | c in s :: IsDigit(c)
  }

  predicate NumericText(s: string) {
    forall c | c in s :: IsNumericChar(c)
  }

  /** Lower-casing of one character, for the ASCII and Latin-1 letters. */
  function Lower(c: char): (l: char)
    ensures IsSpace(c) ==> l == c
    ensures 'a' <= l <= 'z' ==> c == l || c == l - ' ' + '\0'
  {
    if 'A' <= c <= 'Z' || ('\U{00C0}' <= c <= '\U{00DE}' && c != '\U{00D7}') then
      (c as int + 32) as char
    else
      c
  }

  /** The number of UTF-16 code units of `c`: two outside the Basic Multilingual Plane. */
  function Utf16Units(c: char): nat {
    if c as int > 0xFFFF then 2 else 1
  }

  /** JavaScript's `length` of a string, which counts UTF-16 code units. */
  function Utf16Len(s: string): (n: nat)
    ensures |s| <= n <= 2 * |s|
  {
    if |s| == 0 then 0 else Utf16Units(s[0]) + Utf16Len(s[1..])
  }

  lemma {:induction false} Utf16LenAppend(a: string, b: string)
    ensures Utf16Len(a + b) == Utf16Len(a) + Utf16Len(b)
  {
    if |a| > 0 {
      assert (a + b)[1..] == a[1..] + b;
      Utf16LenAppend(a[1..], b);
    } else {
      assert a + b == b;
    }
  }

  /** Number of white-space characters at the front of `s`. */
  function LeadingSpaces(s: string): (n: nat)
    ensures n <= |s|
    ensures forall i | 0 <= i < n :: IsSpace(s[i])
    ensures n < |s| ==> !IsSpace(s[n])
  {
    if |s| == 0 || !IsSpace(s[0]) then 0 else 1 + LeadingSpaces(s[1..])
  }

  /** Number of white-space characters at the back of `s`. */
  function TrailingSpaces(s: string): (n: nat)
    ensures n <= |s|
    ensures forall i | |s| - n <= i < |s| :: IsSpace(s[i])
    ensures n < |s| ==> !IsSpace(s[|s| - 1 - n])
  {
    if |s| == 0 || !IsSpace(s[|s| - 1]) then 0 else 1 + TrailingSpaces(s[..|s| - 1])
  }

  /** `String.prototype.trim`: `s` without its leading and trailing white space. */
  function Trim(s: string): (t: string)
    ensures |t| == 0 <==> AllSpace(s)
    ensures |t| > 0 ==> !IsSpace(t[0]) && !IsSpace(t[|t| - 1])
    ensures exists i :: 0 <= i <= |s| - |t| && t == s[i..i + |t|] && AllSpace(s[..i]) && AllSpace(s[i + |t|..])
  {
    var a := LeadingSpaces(s);
    var rest := s[a..];
    var t := rest[..|rest| - TrailingSpaces(rest)];
    assert AllSpace(s[..a]);
    assert AllSpace(s[a + |t|..]) by {
      forall c | c in s[a + |t|..] ensures IsSpace(c) {
        var j :| 0 <= j < |s[a + |t|..]| && s[a + |t|..][j] == c;
        assert c == rest[|t| + j];
      }
    }
    t
  }

  /** A string with no white space at either end is its own trim. */
  lemma TrimTrimmed(s: string)
    requires |s| == 0 || (!IsSpace(s[0]) && !IsSpace(s[|s| - 1]))
    ensures Trim(s) == s
  {
  }

  /** `Trim` is idempotent. */
  lemma TrimIdempotent(s: string)
    ensures Trim(Trim(s)) == Trim(s)
  {
    TrimTrimmed(Trim(s));
  }

  /** Position of the first `c` in `s`, or `|s|` when there is none. */
  function IndexOf(s: string, c: char): (i: nat)
    ensures i <= |s|
    ensures i < |s| ==> s[i] == c
    ensures forall j | 0 <= j < i :: s[j] != c
    ensures i == |s| <==> c !in s
  {
    if |s| == 0 || s[0] == c then 0 else 1 + IndexOf(s[1..], c)
  }

  /** `parts.join(sep)`. */
  function Join(parts: seq<string>, sep: string): string
  {
    if |parts| == 0 then ""
    else if |parts| == 1 then parts[0]
    else parts[0] + sep + Join(parts[1..], sep)
  }

  /** `s.split(c)` for a one-character separator: the pieces between the occurrences of `c`,
      so that joining them with `c` gives back `s`. */
  function Split(s: string, c: char): (parts: seq<string>)
    ensures |parts| >= 1
    ensures forall k | 0 <= k < |parts| :: c !in parts[k]
    ensures Join(parts, [c]) == s
    ensures parts[0] == s[..IndexOf(s, c)]
    ensures |parts| == 1 <==> c !in s
    decreases |s|
  {
    var i := IndexOf(s, c);
    if i == |s| then
      assert s[..i] == s;
      [s]
    else
      var rest := Split(s[i + 1..], c);
      SplitCons(s, c, i, rest);
      [s[..i]] + rest
  }

  /** The piece before the first `c`, then the pieces after it. */
  lemma SplitCons(s: string, c: char, i: nat, rest: seq<string>)
    requires i < |s| && s[i] == c && forall j | 0 <= j < i :: s[j] != c
    requires |rest| >= 1 && forall k | 0 <= k < |rest| :: c !in rest[k]
    requires Join(rest, [c]) == s[i + 1..]
    ensures forall k | 0 <= k < |[s[..i]] + rest| :: c !in ([s[..i]] + rest)[k]
    ensures Join([s[..i]] + rest, [c]) == s
    ensures c in s
  {
    var parts := [s[..i]] + rest;
    assert parts[1..] == rest;
    assert s == s[..i] + [c] + s[i + 1..];
    forall k | 0 <= k < |parts| ensures c !in parts[k] {
      if k == 0 {
        assert forall x | x in s[..i] :: x != c;
      } else {
        assert parts[k] == rest[k - 1];
      }
    }
  }

  lemma IndexOfJoined(a: string, c: char, b: string)
    requires c !in a
    ensures IndexOf(a + [c] + b, c) == |a|
  {
    var s := a + [c] + b;
    assert s[|a|] == c;
    forall j | 0 <= j < |a| ensures s[j] != c {
      assert s[j] == a[j];
    }
  }

  /** Splitting at the first `c`. */
  lemma SplitAt(s: string, c: char)
    requires c in s
    ensures IndexOf(s, c) < |s|
    ensures Split(s, c) == [s[..IndexOf(s, c)]] + Split(s[IndexOf(s, c) + 1..], c)
  {
  }

  /** Splitting undoes joining, when no piece contains the separator. */
  lemma {:induction false} SplitJoin(parts: seq<string>, c: char)
    requires |parts| >= 1
    requires forall k | 0 <= k < |parts| :: c !in parts[k]
    ensures Split(Join(parts, [c]), c) == parts
  {
    if |parts| == 1 {
      assert Join(parts, [c]) == parts[0];
      assert parts[0][..|parts[0]|] == parts[0];
    } else {
      var s := Join(parts, [c]);
      var rest := Join(parts[1..], [c]);
      assert s == parts[0] + [c] + rest;
      IndexOfJoined(parts[0], c, rest);
      assert s[|parts[0]|] == c;
      SplitAt(s, c);
      assert s[..|parts[0]|] == parts[0];
      assert s[|parts[0]| + 1..] == rest;
      SplitJoin(parts[1..], c);
      assert parts == [parts[0]] + parts[1..];
    }
  }

  /** `s.replace(c, rep)` with a one-character string pattern: only the first `c` is replaced. */
  function ReplaceFirst(s: string, c: char, rep: string): (r: string)
    ensures c !in s ==> r == s
    ensures forall x | x in r :: x in s || x in rep
  {
    var i := IndexOf(s, c);
    if i == |s| then s else s[..i] + rep + s[i + 1..]
  }

  /** The first `c` is the one after a prefix free of `c`. */
  lemma ReplaceFirstAfter(a: string, c: char, b: string, rep: string)
    requires c !in a
    ensures ReplaceFirst(a + [c] + b, c, rep) == a + rep + b
  {
    var s := a + [c] + b;
    IndexOfJoined(a, c, b);
    assert s[..|a|] == a;
    assert s[|a| + 1..] == b;
  }

  /** `s` without the characters of `drop`, as `s.replace(/[...]/g, '')` computes it. */
  function RemoveAll(s: string, drop: set<char>): (r: string)
    ensures forall x | x in r :: x in s && x !in drop
    ensures (forall x | x in s :: x !in drop) ==> r == s
  {
    if |s| == 0 then ""
    else
      var rest := RemoveAll(s[1..], drop);
      assert s == [s[0]] + s[1..];
      if s[0] in drop then rest else [s[0]] + rest
  }

  lemma {:induction false} RemoveAllAppend(a: string, b: string, drop: set<char>)
    ensures RemoveAll(a + b, drop) == RemoveAll(a, drop) + RemoveAll(b, drop)
  {
    if |a| > 0 {
      assert (a + b)[0] == a[0];
      assert (a + b)[1..] == a[1..] + b;
      RemoveAllAppend(a[1..], b, drop);
    } else {
      assert a + b == b;
    }
  }

  /** `w` (written in lower case) occurs in `s` at position `p`, ignoring case:
      the `i` flag of a regular expression, or `toLowerCase` followed by a comparison. */
  predicate MatchesAt(s: string, p: nat, w: string) {
    MatchesFrom(s, p, w, 0)
  }

  predicate MatchesFrom(s: string, p: nat, w: string, k: nat)
    requires k <= |w|
    decreases |w| - k
  {
    if k == |w| then p + k <= |s|
    else p + k < |s| && Lower(s[p + k]) == w[k] && MatchesFrom(s, p, w, k + 1)
  }

  lemma {:induction false} MatchesFromIff(s: string, p: nat, w: string, k: nat)
    requires k <= |w|
    ensures MatchesFrom(s, p, w, k) <==> p + |w| <= |s| && forall j | k <= j < |w| :: Lower(s[p + j]) == w[j]
    decreases |w| - k
  {
    if k < |w| {
      MatchesFromIff(s, p, w, k + 1);
    }
  }

  /** Character-wise statement of `MatchesAt`. */
  lemma MatchesAtIff(s: string, p: nat, w: string)
    ensures MatchesAt(s, p, w) <==> p + |w| <= |s| && forall j | 0 <= j < |w| :: Lower(s[p + j]) == w[j]
  {
    MatchesFromIff(s, p, w, 0);
  }

  /** `s.toLowerCase().startsWith(w)` for a lower-case `w`. */
  predicate StartsWithIgnoringCase(s: string, w: string) {
    MatchesAt(s, 0, w)
  }
}
