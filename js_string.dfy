/** The JavaScript string built-ins the rule wrapper relies on, over `seq<char>`:
    `String.prototype.trim`, `String.prototype.startsWith`, `String.prototype.split`
    with a one-character separator, and `Array.prototype.join`. */
module JsString {

  /** ECMAScript WhiteSpace and LineTerminator code points, the set `trim` removes.
      The space separators (category Zs) are listed explicitly. */
  predicate IsWhitespace(c: char) {
    c == '\t' || c == '\n' || c == '\U{000B}' || c == '\U{000C}' || c == '\r' || c == ' '
    || c == '\U{00A0}' || c == '\U{1680}' || ('\U{2000}' <= c <= '\U{200A}')
    || c == '\U{2028}' || c == '\U{2029}' || c == '\U{202F}' || c == '\U{205F}'
    || c == '\U{3000}' || c == '\U{FEFF}'
  }

  predicate AllWhitespace(s: string) {
    forall k :: 0 <= k < |s| ==> IsWhitespace(s[k])
  }

  /** Neither the first nor the last character of `s` is whitespace. */
  predicate NoEdgeWhitespace(s: string) {
    s == [] || (!IsWhitespace(s[0]) && !IsWhitespace(s[|s| - 1]))
  }

  /** Drops the leading whitespace. */
  function TrimStart(s: string): string
    decreases |s|
  {
    if s != [] && IsWhitespace(s[0]) then TrimStart(s[1..]) else s
  }

  /** Drops the trailing whitespace. */
  function TrimEnd(s: string): string
    decreases |s|
  {
    if s != [] && IsWhitespace(s[|s| - 1]) then TrimEnd(s[..|s| - 1]) else s
  }

  /** `s.trim()`. */
  function Trim(s: string): string {
    TrimEnd(TrimStart(s))
  }

  /** `TrimStart(s)` is the suffix of `s` that starts at its first non-whitespace
      character: what it drops is whitespace and what it keeps does not start with it. */
  lemma {:induction false} TrimStartSpec(s: string)
    ensures var r := TrimStart(s);
      |r| <= |s| && r == s[|s| - |r|..] && AllWhitespace(s[..|s| - |r|])
      && (r == [] || !IsWhitespace(r[0]))
    decreases |s|
  {
    if s != [] && IsWhitespace(s[0]) {
      TrimStartSpec(s[1..]);
      var r := TrimStart(s);
      assert s[..|s| - |r|] == [s[0]] + s[1..][..|s| - 1 - |r|];
    }
  }

  /** `TrimEnd(s)` is the prefix of `s` that ends at its last non-whitespace character. */
  lemma {:induction false} TrimEndSpec(s: string)
    ensures var r := TrimEnd(s);
      |r| <= |s| && r == s[..|r|] && AllWhitespace(s[|r|..])
      && (r == [] || !IsWhitespace(r[|r| - 1]))
    decreases |s|
  {
    if s != [] && IsWhitespace(s[|s| - 1]) {
      TrimEndSpec(s[..|s| - 1]);
      var r := TrimEnd(s);
      assert s[|r|..] == s[..|s| - 1][|r|..] + [s[|s| - 1]];
    }
  }

  /** `Trim(s)` neither starts nor ends with whitespace, and `s` is `Trim(s)` padded
      by whitespace on both sides. */
  lemma TrimSpec(s: string)
    ensures NoEdgeWhitespace(Trim(s))
    ensures |TrimStart(s)| <= |s|
    ensures var r := Trim(s); var lo := |s| - |TrimStart(s)|;
      lo + |r| <= |s| && r == s[lo..lo + |r|]
      && AllWhitespace(s[..lo]) && AllWhitespace(s[lo + |r|..])
  {
    var t := TrimStart(s);
    var r := TrimEnd(t);
    TrimStartSpec(s);
    TrimEndSpec(t);
    assert r != [] ==> r[0] == t[0];
    assert s[|s| - |t|..][|r|..] == s[|s| - |t| + |r|..];
  }

  /** Every character of `Trim(s)` is a character of `s`. */
  lemma TrimChars(s: string)
    ensures forall c :: c in Trim(s) ==> c in s
  {
    var r := Trim(s);
    var lo := |s| - |TrimStart(s)|;
    TrimSpec(s);
    forall c | c in r ensures c in s {
      var k :| 0 <= k < |r| && r[k] == c;
      assert s[lo + k] == c;
    }
  }

  /** Uniqueness of the trimmed form: padding a string without edge whitespace by
      whitespace on both sides and trimming gives that string back. */
  lemma TrimPadded(pre: string, core: string, post: string)
    requires AllWhitespace(pre) && AllWhitespace(post) && NoEdgeWhitespace(core)
    ensures Trim(pre + core + post) == core
  {
    var s := pre + core + post;
    if core == [] {
      assert AllWhitespace(s) by {
        forall k | 0 <= k < |s| ensures IsWhitespace(s[k]) {
          if k < |pre| { assert s[k] == pre[k]; } else { assert s[k] == post[k - |pre|]; }
        }
      }
      TrimStartSpec(s);
    } else {
      TrimStartSpec(s);
      assert s[|pre|] == core[0];
      assert TrimStart(s) == core + post;
      TrimEndSpec(core + post);
      assert (core + post)[|core| - 1] == core[|core| - 1];
    }
  }

  /** `trim` is idempotent. */
  lemma TrimIdempotent(s: string)
    ensures Trim(Trim(s)) == Trim(s)
  {
    TrimSpec(s);
    TrimPadded([], Trim(s), []);
    assert [] + Trim(s) + [] == Trim(s);
  }

  /** `s.startsWith(p)`. */
  predicate StartsWith(s: string, p: string) {
    |p| <= |s| && s[..|p|] == p
  }

  /** `s.split(sep)` for a one-character separator: the pieces of `s` between
      occurrences of `sep`. JavaScript always returns at least one piece
      (`"".split('\n')` is `[""]`, `"a\n".split('\n')` is `["a", ""]`). */
  function Split(s: string, sep: char): seq<string> {
    SplitFrom(s, sep, [])
  }

  /** The pieces of `piece + s`, where `piece` is the separator-free text read since
      the last separator. */
  function SplitFrom(s: string, sep: char, piece: string): seq<string>
    decreases |s|
  {
    if s == [] then [piece]
    else if s[0] == sep then [piece] + SplitFrom(s[1..], sep, [])
    else SplitFrom(s[1..], sep, piece + [s[0]])
  }

  /** `lines.join(sep)`. */
  function Join(lines: seq<string>, sep: char): string
    decreases |lines|
  {
    if |lines| == 0 then []
    else if |lines| == 1 then lines[0]
    else lines[0] + [sep] + Join(lines[1..], sep)
  }

  /** Number of occurrences of `c` in `s`. */
  function Count(s: string, c: char): nat
    decreases |s|
  {
    if s == [] then 0 else (if s[0] == c then 1 else 0) + Count(s[1..], c)
  }

  /** Splitting yields one piece more than there are separators, and no piece holds
      the separator. */
  lemma {:induction false} SplitFromSpec(s: string, sep: char, piece: string)
    requires sep !in piece
    ensures |SplitFrom(s, sep, piece)| == Count(s, sep) + 1
    ensures forall i :: 0 <= i < |SplitFrom(s, sep, piece)| ==> sep !in SplitFrom(s, sep, piece)[i]
    decreases |s|
  {
    if s != [] {
      if s[0] == sep {
        SplitFromSpec(s[1..], sep, []);
      } else {
        SplitFromSpec(s[1..], sep, piece + [s[0]]);
      }
    }
  }

  /** `s.split(sep)` has one piece more than `s` has separators, and no piece holds
      the separator. */
  lemma SplitSpec(s: string, sep: char)
    ensures |Split(s, sep)| == Count(s, sep) + 1
    ensures forall i :: 0 <= i < |Split(s, sep)| ==> sep !in Split(s, sep)[i]
  {
    SplitFromSpec(s, sep, []);
  }

  lemma {:induction false} JoinSplitFrom(s: string, sep: char, piece: string)
    ensures Join(SplitFrom(s, sep, piece), sep) == piece + s
    decreases |s|
  {
    if s != [] {
      if s[0] == sep {
        JoinSplitFrom(s[1..], sep, []);
        SplitFromSpec(s[1..], sep, []);
        var rest := SplitFrom(s[1..], sep, []);
        assert ([piece] + rest)[1..] == rest;
        assert s == [sep] + s[1..];
      } else {
        JoinSplitFrom(s[1..], sep, piece + [s[0]]);
        assert s == [s[0]] + s[1..];
      }
    }
  }

  /** Joining the pieces with the separator gives the original string back. */
  lemma JoinSplit(s: string, sep: char)
    ensures Join(Split(s, sep), sep) == s
  {
    JoinSplitFrom(s, sep, []);
  }

  /** Text without the separator stays in the current piece. */
  lemma {:induction false} SplitFromNoSeparator(a: string, sep: char, piece: string, b: string)
    requires sep !in a
    ensures SplitFrom(a + b, sep, piece) == SplitFrom(b, sep, piece + a)
    decreases |a|
  {
    if a != [] {
      assert (a + b)[1..] == a[1..] + b;
      SplitFromNoSeparator(a[1..], sep, piece + [a[0]], b);
      assert piece + [a[0]] + a[1..] == piece + a;
    } else {
      assert a + b == b && piece + a == piece;
    }
  }

  /** A separator-free first piece followed by the separator splits off as one piece. */
  lemma SplitCons(a: string, sep: char, b: string)
    requires sep !in a
    ensures Split(a + [sep] + b, sep) == [a] + Split(b, sep)
  {
    SplitFromNoSeparator(a, sep, [], [sep] + b);
    assert a + [sep] + b == a + ([sep] + b);
    assert ([sep] + b)[1..] == b;
    assert [] + a == a;
  }

  /** A string without the separator splits into itself alone. */
  lemma SplitNoSeparator(a: string, sep: char)
    requires sep !in a
    ensures Split(a, sep) == [a]
  {
    SplitFromNoSeparator(a, sep, [], []);
    assert a + [] == a;
    assert [] + a == a;
  }

  /** Splitting a join of separator-free pieces gives the pieces back. */
  lemma {:induction false} SplitJoin(lines: seq<string>, sep: char)
    requires |lines| >= 1
    requires forall i :: 0 <= i < |lines| ==> sep !in lines[i]
    ensures Split(Join(lines, sep), sep) == lines
    decreases |lines|
  {
    if |lines| == 1 {
      SplitNoSeparator(lines[0], sep);
    } else {
      SplitJoin(lines[1..], sep);
      SplitCons(lines[0], sep, Join(lines[1..], sep));
      assert lines == [lines[0]] + lines[1..];
    }
  }
}
