/**
 * The subset of JavaScript's string built-ins that the translator uses:
 * `trim`, `startsWith`, `endsWith`, `includes`, `split` (on a character and on
 * the two regular expressions `/\s*,\s*\/` and `/\s+/`), `join`, `padStart`
 * and `toUpperCase` (ASCII letters only).
 */
module JsString {

  /** The characters JavaScript's `\s` and `String.prototype.trim` treat as white space. */
  predicate IsSpace(c: char) {
    var n := c as int;
    (0x09 <= n <= 0x0D) || n == 0x20 || n == 0xA0 || n == 0x1680
    || (0x2000 <= n <= 0x200A) || n == 0x2028 || n == 0x2029 || n == 0x202F
    || n == 0x205F || n == 0x3000 || n == 0xFEFF
  }

  /** A lower-case identifier: a letter, then letters and digits. */
  predicate IsIdentifier(s: string) {
    |s| > 0 && 'a' <= s[0] <= 'z'
    && forall i :: 0 <= i < |s| ==> 'a' <= s[i] <= 'z' || '0' <= s[i] <= '9'
  }

  predicate NoSpace(s: string) {
    forall i :: 0 <= i < |s| ==> !IsSpace(s[i])
  }

  predicate NoChar(s: string, c: char) {
    forall i :: 0 <= i < |s| ==> s[i] != c
  }

  /** Neither end of `s` is white space. */
  predicate Trimmed(s: string) {
    |s| > 0 ==> !IsSpace(s[0]) && !IsSpace(s[|s| - 1])
  }

  /** `s.trimStart()`: the suffix of `s` that starts at its first non-space character. */
  function TrimStart(s: string): (r: string)
    ensures |r| <= |s| && r == s[|s| - |r|..]
    ensures |r| > 0 ==> !IsSpace(r[0])
    ensures forall i :: 0 <= i < |s| - |r| ==> IsSpace(s[i])
  {
    if |s| > 0 && IsSpace(s[0]) then TrimStart(s[1..]) else s
  }

  /** `s.trimEnd()`: the prefix of `s` that ends at its last non-space character. */
  function TrimEnd(s: string): (r: string)
    ensures |r| <= |s| && r == s[..|r|]
    ensures |r| > 0 ==> !IsSpace(r[|r| - 1])
    ensures forall i :: |r| <= i < |s| ==> IsSpace(s[i])
  {
    if |s| > 0 && IsSpace(s[|s| - 1]) then TrimEnd(s[..|s| - 1]) else s
  }

  /** `s.trim()`. */
  function Trim(s: string): (r: string)
    ensures Trimmed(r)
  {
    TrimEnd(TrimStart(s))
  }

  predicate StartsWith(s: string, prefix: string) {
    |prefix| <= |s| && s[..|prefix|] == prefix
  }

  predicate EndsWith(s: string, suffix: string) {
    |suffix| <= |s| && s[|s| - |suffix|..] == suffix
  }

  /** `s.includes(c)` for a one-character search string. */
  predicate Contains(s: string, c: char) {
    exists i :: 0 <= i < |s| && s[i] == c
  }

  /** The index of the first `c` in `s`, or `|s|` when there is none. */
  function IndexOf(s: string, c: char): (i: nat)
    ensures i <= |s|
    ensures i < |s| ==> s[i] == c
    ensures forall k :: 0 <= k < i ==> s[k] != c
  {
    if |s| == 0 then 0
    else if s[0] == c then 0
    else 1 + IndexOf(s[1..], c)
  }

  /** The index of the first white-space character of `s`, or `|s|`. */
  function IndexOfSpace(s: string): (i: nat)
    ensures i <= |s|
    ensures i < |s| ==> IsSpace(s[i])
    ensures forall k :: 0 <= k < i ==> !IsSpace(s[k])
  {
    if |s| == 0 then 0
    else if IsSpace(s[0]) then 0
    else 1 + IndexOfSpace(s[1..])
  }

  /** `s.split(c)` for a one-character separator. */
  function SplitOnChar(s: string, c: char): (r: seq<string>)
    ensures |r| >= 1
    ensures forall k :: 0 <= k < |r| ==> NoChar(r[k], c)
    decreases |s|
  {
    var i := IndexOf(s, c);
    if i == |s| then [s] else [s[..i]] + SplitOnChar(s[i + 1..], c)
  }

  /**
   * `s.split(/\s*,\s*\/)`: the white space on both sides of every comma
   * belongs to the separator.
   */
  function SplitComma(s: string): (r: seq<string>)
    ensures |r| >= 1
    ensures forall k :: 0 <= k < |r| ==> NoChar(r[k], ',')
    decreases |s|
  {
    var i := IndexOf(s, ',');
    if i == |s| then [s] else [TrimEnd(s[..i])] + SplitComma(TrimStart(s[i + 1..]))
  }

  /** `s.split(/\s+/)`: every maximal run of white space separates two words. */
  function SplitWhitespace(s: string): (r: seq<string>)
    ensures |r| >= 1
    ensures forall k :: 0 <= k < |r| ==> NoSpace(r[k])
    decreases |s|
  {
    var i := IndexOfSpace(s);
    if i == |s| then [s] else [s[..i]] + SplitWhitespace(TrimStart(s[i..]))
  }

  /** `xs.join(sep)`. */
  function Join(xs: seq<string>, sep: string): string {
    if |xs| == 0 then ""
    else if |xs| == 1 then xs[0]
    else xs[0] + sep + Join(xs[1..], sep)
  }

  function Repeat(c: char, n: nat): (r: string)
    ensures |r| == n && forall i :: 0 <= i < n ==> r[i] == c
  {
    if n == 0 then "" else [c] + Repeat(c, n - 1)
  }

  /** `s.padStart(width, c)`: pads on the left, never truncates. */
  function PadStart(s: string, width: nat, c: char): (r: string)
    ensures |r| == if |s| >= width then |s| else width
    ensures r == Repeat(c, |r| - |s|) + s
  {
    if |s| >= width then s else Repeat(c, width - |s|) + s
  }

  function UpperChar(c: char): char {
    if 'a' <= c <= 'z' then (c as int - 'a' as int + 'A' as int) as char else c
  }

  /** `s.toUpperCase()` restricted to ASCII letters. */
  function ToUpper(s: string): (r: string)
    ensures |r| == |s| && forall i :: 0 <= i < |s| ==> r[i] == UpperChar(s[i])
  {
    if |s| == 0 then "" else [UpperChar(s[0])] + ToUpper(s[1..])
  }

  /** A non-empty sequence is its first element followed by the rest. */
  lemma HeadThenRest<T>(s: seq<T>)
    requires |s| > 0
    ensures [s[0]] + s[1..] == s
  {
  }

  lemma ToUpperConcat(a: string, b: string)
    ensures ToUpper(a + b) == ToUpper(a) + ToUpper(b)
  {
    assert ToUpper(a + b) == ToUpper(a) + ToUpper(b);
  }

  /** Joining the pieces of a split gives the string back. */
  lemma {:induction false} JoinSplitOnChar(s: string, c: char)
    ensures Join(SplitOnChar(s, c), [c]) == s
    decreases |s|
  {
    var i := IndexOf(s, c);
    if i < |s| {
      var rest := SplitOnChar(s[i + 1..], c);
      JoinSplitOnChar(s[i + 1..], c);
      assert SplitOnChar(s, c) == [s[..i]] + rest;
      assert s == s[..i] + [c] + s[i + 1..];
    }
  }

  /** Splitting a join gives the pieces back when no piece holds the separator. */
  lemma {:induction false} SplitOnCharJoin(xs: seq<string>, c: char)
    requires |xs| >= 1
    requires forall k :: 0 <= k < |xs| ==> NoChar(xs[k], c)
    ensures SplitOnChar(Join(xs, [c]), c) == xs
  {
    if |xs| > 1 {
      var rest := xs[1..];
      var tail := Join(rest, [c]);
      assert Join(xs, [c]) == xs[0] + [c] + tail;
      assert forall k :: 0 <= k < |rest| ==> rest[k] == xs[k + 1];
      SplitOnCharStep(xs[0], c, tail);
      SplitOnCharJoin(rest, c);
      HeadThenRest(xs);
    }
  }

  /** A piece without `c`, then `c`: the split takes that piece and goes on after it. */
  lemma SplitOnCharStep(a: string, c: char, tail: string)
    requires NoChar(a, c)
    ensures SplitOnChar(a + [c] + tail, c) == [a] + SplitOnChar(tail, c)
  {
    var s := a + [c] + tail;
    assert IndexOf(s, c) == |a| by {
      assert s[|a|] == c;
      assert forall k :: 0 <= k < |a| ==> s[k] == a[k];
    }
    assert s[..|a|] == a;
    assert s[|a| + 1..] == tail;
  }

  /** The join of pieces without `c` holds no `c` when the separator holds none. */
  lemma {:induction false} JoinNoChar(xs: seq<string>, sep: string, c: char)
    requires NoChar(sep, c)
    requires forall k :: 0 <= k < |xs| ==> NoChar(xs[k], c)
    ensures NoChar(Join(xs, sep), c)
  {
    if |xs| > 1 {
      JoinNoChar(xs[1..], sep, c);
    }
  }

  /**
   * Splitting `x0, x1, ..., xn` on `/\s*,\s*\/` gives the pieces back when no
   * piece holds a comma or has white space at either end.
   */
  lemma {:induction false} SplitCommaJoin(xs: seq<string>)
    requires |xs| >= 1
    requires forall k :: 0 <= k < |xs| ==> NoChar(xs[k], ',') && Trimmed(xs[k])
    ensures SplitComma(Join(xs, ", ")) == xs
  {
    if |xs| > 1 {
      var rest := xs[1..];
      var tail := Join(rest, ", ");
      assert Join(xs, ", ") == xs[0] + ", " + tail;
      assert forall k :: 0 <= k < |rest| ==> rest[k] == xs[k + 1];
      JoinStartsTrimmed(rest);
      SplitCommaStep(xs[0], tail);
      SplitCommaJoin(rest);
      HeadThenRest(xs);
    }
  }

  /** A trimmed comma-free piece, then `, `, then a text not starting with white space. */
  lemma SplitCommaStep(a: string, tail: string)
    requires NoChar(a, ',') && Trimmed(a)
    requires |tail| > 0 ==> !IsSpace(tail[0])
    ensures SplitComma(a + ", " + tail) == [a] + SplitComma(tail)
  {
    var s := a + ", " + tail;
    FirstCommaAfter(a, tail);
    SplitCommaAt(s, |a|);
    CommaPieces(a, tail);
    TrimEndPlain(a);
    SpaceThenPlain(tail);
  }

  /** The text before and after the comma of `a, tail`. */
  lemma CommaPieces(a: string, tail: string)
    ensures (a + ", " + tail)[..|a|] == a && (a + ", " + tail)[|a| + 1..] == " " + tail
  {
  }

  lemma TrimEndPlain(a: string)
    requires Trimmed(a)
    ensures TrimEnd(a) == a
  {
  }

  /** One split step at the first comma. */
  lemma SplitCommaAt(s: string, n: nat)
    requires n == IndexOf(s, ',') && n < |s|
    ensures SplitComma(s) == [TrimEnd(s[..n])] + SplitComma(TrimStart(s[n + 1..]))
  {
  }

  /** A space before a text that does not start with white space is trimmed away. */
  lemma SpaceThenPlain(t: string)
    requires |t| > 0 ==> !IsSpace(t[0])
    ensures TrimStart(" " + t) == t
  {
    assert (" " + t)[1..] == t;
  }

  lemma FirstCommaAfter(a: string, tail: string)
    requires NoChar(a, ',')
    ensures IndexOf(a + ", " + tail, ',') == |a|
  {
    var s := a + ", " + tail;
    assert s[|a|] == ',';
    assert forall k :: 0 <= k < |a| ==> s[k] == a[k];
  }

  /** A comma-join of trimmed pieces does not start with white space. */
  lemma {:induction false} JoinStartsTrimmed(xs: seq<string>)
    requires |xs| >= 1
    requires forall k :: 0 <= k < |xs| ==> Trimmed(xs[k])
    ensures |Join(xs, ", ")| > 0 ==> !IsSpace(Join(xs, ", ")[0])
  {
    if |xs| > 1 {
      var s := Join(xs, ", ");
      assert s == xs[0] + ", " + Join(xs[1..], ", ");
      if |xs[0]| > 0 {
        assert s[0] == xs[0][0];
      } else {
        assert s[0] == ',';
      }
    }
  }

  /** A join starts with its first piece. */
  lemma {:induction false} JoinHead(xs: seq<string>, sep: string)
    requires |xs| >= 1
    ensures StartsWith(Join(xs, sep), xs[0])
    ensures |xs[0]| > 0 ==> Join(xs, sep)[0] == xs[0][0]
  {
    if |xs| > 1 {
      assert Join(xs, sep) == xs[0] + (sep + Join(xs[1..], sep));
    }
  }

  /** A join ends with its last piece. */
  lemma {:induction false} JoinLast(xs: seq<string>, sep: string)
    requires |xs| >= 1 && |xs[|xs| - 1]| > 0
    ensures |Join(xs, sep)| > 0
    ensures Join(xs, sep)[|Join(xs, sep)| - 1] == xs[|xs| - 1][|xs[|xs| - 1]| - 1]
  {
    if |xs| > 1 {
      assert Join(xs, sep) == (xs[0] + sep) + Join(xs[1..], sep);
      JoinLast(xs[1..], sep);
    }
  }

  /** A join of trimmed pieces whose end pieces are not empty is trimmed. */
  lemma JoinTrimmed(xs: seq<string>, sep: string)
    requires |xs| >= 1
    requires forall k :: 0 <= k < |xs| ==> Trimmed(xs[k])
    requires |xs| > 1 ==> xs[0] != "" && xs[|xs| - 1] != ""
    ensures Trimmed(Join(xs, sep))
  {
    if |xs| > 1 {
      JoinHead(xs, sep);
      JoinLast(xs, sep);
    }
  }

  /** Trimming a string whose ends are not white space leaves it unchanged. */
  lemma TrimOfTrimmed(s: string)
    requires Trimmed(s)
    ensures Trim(s) == s
  {
    assert TrimStart(s) == s;
  }

  /** Trimming keeps a string free of `c`. */
  lemma TrimNoChar(s: string, c: char)
    requires NoChar(s, c)
    ensures NoChar(Trim(s), c)
  {
    var t := TrimStart(s);
    assert forall i :: 0 <= i < |t| ==> t[i] == s[|s| - |t| + i];
    var r := TrimEnd(t);
    assert forall i :: 0 <= i < |r| ==> r[i] == t[i];
  }

  /** Two words separated by one space split back into those two words. */
  lemma SplitWhitespacePair(a: string, b: string)
    requires |a| > 0 && |b| > 0 && NoSpace(a) && NoSpace(b)
    ensures SplitWhitespace(a + " " + b) == [a, b]
  {
    SplitWhitespaceCons(a, b);
    SplitWhitespaceWord(b);
  }

  /** A word followed by one space splits into that word and the words of the rest. */
  lemma SplitWhitespaceCons(a: string, b: string)
    requires |a| > 0 && NoSpace(a)
    requires |b| > 0 ==> !IsSpace(b[0])
    ensures SplitWhitespace(a + " " + b) == [a] + SplitWhitespace(b)
  {
    FirstSpaceAfterWord(a, b);
    SpacedParts(a, b);
    OneSpaceTrimmed(b);
  }

  /** `a b` cut at the end of `a`. */
  lemma SpacedParts(a: string, b: string)
    ensures (a + " " + b)[..|a|] == a && (a + " " + b)[|a|..] == " " + b
  {
    var s := a + " " + b;
    assert s[..|a|] == a;
    assert s[|a|..] == " " + b;
  }

  /** The first white space of `a b`, for a word `a`, is the space after it. */
  lemma FirstSpaceAfterWord(a: string, b: string)
    requires NoSpace(a)
    ensures IndexOfSpace(a + " " + b) == |a|
  {
    var s := a + " " + b;
    assert s[|a|] == ' ' && IsSpace(' ');
    assert forall k :: 0 <= k < |a| ==> s[k] == a[k];
  }

  /** `trimStart` drops a single leading space before a non-space. */
  lemma OneSpaceTrimmed(b: string)
    requires |b| > 0 ==> !IsSpace(b[0])
    ensures TrimStart(" " + b) == b
  {
    assert IsSpace(' ');
    assert (" " + b)[1..] == b;
  }

  /** A string without white space is one word. */
  lemma SplitWhitespaceWord(a: string)
    requires NoSpace(a)
    ensures SplitWhitespace(a) == [a]
  {
    assert IndexOfSpace(a) == |a|;
  }

  /** A string without commas is one comma segment. */
  lemma SplitCommaWord(a: string)
    requires NoChar(a, ',')
    ensures SplitComma(a) == [a]
  {
    assert IndexOf(a, ',') == |a|;
  }

  /** Prefixing a join is prefixing its first piece. */
  lemma JoinPrefix(h: string, xs: seq<string>, sep: string)
    requires |xs| >= 1
    ensures h + Join(xs, sep) == Join([h + xs[0]] + xs[1..], sep)
  {
    var ys := [h + xs[0]] + xs[1..];
    assert ys[1..] == xs[1..];
    if |xs| > 1 {
      assert Join(xs, sep) == xs[0] + sep + Join(xs[1..], sep);
      assert Join(ys, sep) == (h + xs[0]) + sep + Join(xs[1..], sep);
    }
  }

  /** An identifier is one word without commas and without white space at either end. */
  lemma IdentifierIsPlainWord(s: string)
    requires IsIdentifier(s)
    ensures NoSpace(s) && NoChar(s, ',') && Trimmed(s) && |s| > 0
  {
    forall i | 0 <= i < |s| ensures !IsSpace(s[i]) && s[i] != ',' {
      assert 'a' <= s[i] <= 'z' || '0' <= s[i] <= '9';
    }
  }

  lemma NoCharConcat(x: string, y: string, c: char)
    requires NoChar(x, c) && NoChar(y, c)
    ensures NoChar(x + y, c)
  {
    forall i | 0 <= i < |x + y| ensures (x + y)[i] != c {
      if i < |x| { assert (x + y)[i] == x[i]; } else { assert (x + y)[i] == y[i - |x|]; }
    }
  }
}
