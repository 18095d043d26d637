/** The Python string operations the collection code relies on, written out:
    `str.split(sep)`, `str.split()`, `sep.join`, the slices `s[:n]`, `s[:-1]`
    and `s[1:-1]`, and `s.encode('ascii', errors='ignore').decode()`. */
module PyStr {

  /** Python's `str.isspace` for one character: the characters on which
      `str.split()` with no argument splits. */
  predicate IsSpace(c: char) {
    || c == ' '
    || ('\t' <= c <= '\r')
    || ('\U{1c}' <= c <= '\U{1f}')
    || c == '\U{85}' || c == '\U{a0}' || c == '\U{1680}'
    || ('\U{2000}' <= c <= '\U{200a}')
    || c == '\U{2028}' || c == '\U{2029}' || c == '\U{202f}' || c == '\U{205f}' || c == '\U{3000}'
  }

  predicate NoSpace(s: string) {
    forall i :: 0 <= i < |s| ==> !IsSpace(s[i])
  }

  predicate AllSpace(s: string) {
    forall i :: 0 <= i < |s| ==> IsSpace(s[i])
  }

  /** `s[:n]` for a non-negative `n`. */
  function Prefix(s: string, n: nat): (r: string)
    ensures |r| == if |s| < n then |s| else n
    ensures r <= s
  {
    if |s| <= n then s else s[..n]
  }

  /** `s[:-1]`: everything but the last character; the empty string stays empty. */
  function DropLast(s: string): (r: string)
    ensures |s| > 0 ==> s == r + [s[|s| - 1]]
    ensures |s| == 0 ==> r == []
  {
    if |s| == 0 then s else s[..|s| - 1]
  }

  /** `t[1:-1]`: the first and the last character dropped; shorter than two gives "". */
  function Inner(t: string): (r: string)
    ensures |t| >= 2 ==> t == [t[0]] + r + [t[|t| - 1]]
    ensures |t| < 2 ==> r == []
  {
    if |t| < 2 then [] else t[1..|t| - 1]
  }

  // ---------------------------------------------------------------------------
  // str.split(sep) and sep.join(parts) for a one-character separator
  // ---------------------------------------------------------------------------

  /** `s.split(sep)`: never empty (`"".split(",") == [""]`), and no part holds `sep`. */
  function Split(s: string, sep: char): (parts: seq<string>)
    ensures |parts| >= 1
    ensures forall k :: 0 <= k < |parts| ==> sep !in parts[k]
  {
    if s == [] then [[]]
    else
      var rest := Split(s[1..], sep);
      if s[0] == sep then [[]] + rest
      else [[s[0]] + rest[0]] + rest[1..]
  }

  /** `sep.join(parts)`. */
  function Join(parts: seq<string>, sep: char): string
  {
    if |parts| == 0 then []
    else if |parts| == 1 then parts[0]
    else parts[0] + [sep] + Join(parts[1..], sep)
  }

  lemma {:induction false} JoinSnoc(parts: seq<string>, p: string, sep: char)
    requires |parts| >= 1
    ensures Join(parts + [p], sep) == Join(parts, sep) + [sep] + p
  {
    if |parts| == 1 {
      assert (parts + [p])[1..] == [p];
    } else {
      assert (parts + [p])[1..] == parts[1..] + [p];
      JoinSnoc(parts[1..], p, sep);
    }
  }

  /** Joining the parts of a split gives the string back. */
  lemma {:induction false} JoinSplit(s: string, sep: char)
    ensures Join(Split(s, sep), sep) == s
  {
    if s != [] {
      var rest := Split(s[1..], sep);
      JoinSplit(s[1..], sep);
      if s[0] == sep {
        assert ([[]] + rest)[1..] == rest;
      } else if |rest| == 1 {
        assert Split(s, sep) == [[s[0]] + rest[0]];
      } else {
        var parts := [[s[0]] + rest[0]] + rest[1..];
        assert parts[1..] == rest[1..];
        assert Join(parts, sep) == [s[0]] + (rest[0] + [sep] + Join(rest[1..], sep));
      }
    }
  }

  lemma {:induction false} SplitWithoutSep(w: string, sep: char)
    requires sep !in w
    ensures Split(w, sep) == [w]
  {
    if w != [] {
      SplitWithoutSep(w[1..], sep);
      assert [w[0]] + w[1..] == w;
    }
  }

  lemma {:induction false} SplitAfterSep(w: string, t: string, sep: char)
    requires sep !in w
    ensures Split(w + [sep] + t, sep) == [w] + Split(t, sep)
  {
    var s := w + [sep] + t;
    if w == [] {
      assert s[1..] == t;
    } else {
      assert s[1..] == w[1..] + [sep] + t;
      SplitAfterSep(w[1..], t, sep);
      assert [w[0]] + w[1..] == w;
    }
  }

  /** Splitting a join of separator-free parts gives the parts back. */
  lemma {:induction false} SplitJoin(parts: seq<string>, sep: char)
    requires |parts| >= 1
    requires forall k :: 0 <= k < |parts| ==> sep !in parts[k]
    ensures Split(Join(parts, sep), sep) == parts
  {
    if |parts| == 1 {
      SplitWithoutSep(parts[0], sep);
    } else {
      SplitJoin(parts[1..], sep);
      SplitAfterSep(parts[0], Join(parts[1..], sep), sep);
    }
  }

  /** The last part of `s.split(sep)`, i.e. `s.split(sep)[-1]`: the text after
      the last `sep`, or all of `s` when it has none. */
  function LastPart(s: string, sep: char): (r: string)
    ensures sep !in r
  {
    var parts := Split(s, sep);
    parts[|parts| - 1]
  }

  /** `s` is whatever comes before its last part, followed by the last part; the
      part before is empty or ends with the separator. */
  lemma {:induction false} LastPartIsSuffix(s: string, sep: char)
    ensures exists pre :: s == pre + LastPart(s, sep) && (pre == [] || pre[|pre| - 1] == sep)
  {
    var parts := Split(s, sep);
    JoinSplit(s, sep);
    if |parts| == 1 {
      assert s == [] + LastPart(s, sep);
    } else {
      var init := parts[..|parts| - 1];
      JoinSnoc(init, parts[|parts| - 1], sep);
      assert init + [parts[|parts| - 1]] == parts;
      var pre := Join(init, sep) + [sep];
      assert s == pre + LastPart(s, sep);
    }
  }

  // ---------------------------------------------------------------------------
  // Building "t1,t2,...,tn," with += and cutting the last character
  // ---------------------------------------------------------------------------

  /** The string `t1 + sep + t2 + sep + ... + tn + sep` built by a loop of `+=`. */
  function Accumulate(ts: seq<string>, sep: char): string
  {
    if |ts| == 0 then [] else Accumulate(ts[..|ts| - 1], sep) + ts[|ts| - 1] + [sep]
  }

  /** Cutting the trailing separator off the accumulated string is `sep.join`:
      no trailing separator, and "" when there is nothing to join. */
  lemma {:induction false} DropLastAccumulate(ts: seq<string>, sep: char)
    ensures DropLast(Accumulate(ts, sep)) == Join(ts, sep)
  {
    if |ts| == 1 {
      assert Accumulate(ts[..0], sep) == [];
    } else if |ts| > 1 {
      var init := ts[..|ts| - 1];
      DropLastAccumulate(init, sep);
      var a := Accumulate(init, sep);
      assert a == Accumulate(init[..|init| - 1], sep) + init[|init| - 1] + [sep];
      assert a == DropLast(a) + [sep];
      JoinSnoc(init, ts[|ts| - 1], sep);
      assert init + [ts[|ts| - 1]] == ts;
    }
  }

  // ---------------------------------------------------------------------------
  // str.split() with no argument
  // ---------------------------------------------------------------------------

  /** Length of the run of non-whitespace characters at the start of `s`. */
  function WordLength(s: string): (n: nat)
    ensures n <= |s|
    ensures NoSpace(s[..n])
    ensures n < |s| ==> IsSpace(s[n])
  {
    if s == [] || IsSpace(s[0]) then 0 else 1 + WordLength(s[1..])
  }

  /** `s.split()`: the maximal runs of non-whitespace characters, in order. */
  function Words(s: string): seq<string>
    decreases |s|
  {
    if s == [] then []
    else if IsSpace(s[0]) then Words(s[1..])
    else
      var n := WordLength(s);
      [s[..n]] + Words(s[n..])
  }

  /** Every element of `s.split()` is a non-empty run without whitespace. */
  lemma {:induction false} WordsAreTokens(s: string)
    ensures forall k :: 0 <= k < |Words(s)| ==> Words(s)[k] != [] && NoSpace(Words(s)[k])
    decreases |s|
  {
    if s != [] {
      if IsSpace(s[0]) {
        WordsAreTokens(s[1..]);
      } else {
        var n := WordLength(s);
        WordsAreTokens(s[n..]);
        assert Words(s) == [s[..n]] + Words(s[n..]);
      }
    }
  }

  lemma {:induction false} WordLengthAppend(a: string, b: string)
    requires WordLength(a) < |a|
    ensures WordLength(a + b) == WordLength(a)
  {
    if !IsSpace(a[0]) {
      assert (a + b)[1..] == a[1..] + b;
      WordLengthAppend(a[1..], b);
    }
  }

  lemma {:induction false} WordLengthOfWord(w: string, t: string)
    requires NoSpace(w)
    requires t == [] || IsSpace(t[0])
    ensures WordLength(w + t) == |w|
  {
    if w != [] {
      assert (w + t)[1..] == w[1..] + t;
      WordLengthOfWord(w[1..], t);
    } else {
      assert w + t == t;
    }
  }

  lemma {:induction false} WordsOfSpaces(t: string)
    requires AllSpace(t)
    ensures Words(t) == []
  {
    if t != [] {
      WordsOfSpaces(t[1..]);
    }
  }

  /** `s.split()` is empty exactly when `s` is all whitespace. */
  lemma {:induction false} WordsEmpty(s: string)
    ensures Words(s) == [] <==> AllSpace(s)
  {
    if s != [] && IsSpace(s[0]) {
      WordsEmpty(s[1..]);
      if AllSpace(s[1..]) {
        assert AllSpace(s) by {
          forall i | 0 <= i < |s| ensures IsSpace(s[i]) {
            if i > 0 { assert s[i] == s[1..][i - 1]; }
          }
        }
      }
    }
  }

  /** Splitting on whitespace distributes over a concatenation whose first part
      is empty or ends in whitespace. */
  lemma {:induction false} WordsAppend(a: string, b: string)
    requires a == [] || IsSpace(a[|a| - 1])
    ensures Words(a + b) == Words(a) + Words(b)
    decreases |a|
  {
    if a == [] {
      assert a + b == b;
    } else if IsSpace(a[0]) {
      assert (a + b)[1..] == a[1..] + b;
      WordsAppend(a[1..], b);
    } else {
      var n := WordLength(a);
      assert n < |a|;
      WordLengthAppend(a, b);
      assert (a + b)[..n] == a[..n];
      assert (a + b)[n..] == a[n..] + b;
      WordsAppend(a[n..], b);
    }
  }

  /** A single token followed only by whitespace splits to that token. */
  lemma {:induction false} WordsOfWord(w: string, t: string)
    requires w != [] && NoSpace(w) && AllSpace(t)
    ensures Words(w + t) == [w]
  {
    WordLengthOfWord(w, t);
    assert (w + t)[..|w|] == w;
    assert (w + t)[|w|..] == t;
    WordsOfSpaces(t);
  }

  // ---------------------------------------------------------------------------
  // s.encode('ascii', errors='ignore').decode()
  // ---------------------------------------------------------------------------

  /** The characters of `s` below code point 128, in order. */
  function AsciiOnly(s: string): (r: string)
    ensures |r| <= |s|
    ensures forall i :: 0 <= i < |r| ==> r[i] as int < 128
  {
    if s == [] then []
    else (if s[0] as int < 128 then [s[0]] else []) + AsciiOnly(s[1..])
  }

  /** The filter works character by character, so it keeps the order of the text. */
  lemma {:induction false} AsciiOnlyAppend(a: string, b: string)
    ensures AsciiOnly(a + b) == AsciiOnly(a) + AsciiOnly(b)
  {
    if a == [] {
      assert a + b == b;
    } else {
      assert (a + b)[1..] == a[1..] + b;
      AsciiOnlyAppend(a[1..], b);
    }
  }

  /** A string is left unchanged exactly when all its characters are below 128. */
  lemma {:induction false} AsciiOnlyFixed(s: string)
    ensures AsciiOnly(s) == s <==> forall i :: 0 <= i < |s| ==> s[i] as int < 128
  {
    if s != [] {
      AsciiOnlyFixed(s[1..]);
      if s[0] as int < 128 {
        if forall i :: 0 <= i < |s[1..]| ==> s[1..][i] as int < 128 {
          assert [s[0]] + s[1..] == s;
        }
        if AsciiOnly(s) == s {
          assert AsciiOnly(s[1..]) == s[1..];
        }
      } else {
        assert AsciiOnly(s) != s by {
          assert |AsciiOnly(s)| < |s|;
        }
      }
    }
  }

  /** Filtering twice changes nothing. */
  lemma {:induction false} AsciiOnlyIdempotent(s: string)
    ensures AsciiOnly(AsciiOnly(s)) == AsciiOnly(s)
  {
    AsciiOnlyFixed(AsciiOnly(s));
  }

  /** Exactly the characters of code point 128 or more are removed: every
      character below 128 keeps its number of occurrences, every other
      character is gone. */
  lemma {:induction false} AsciiOnlyCounts(s: string, c: char)
    ensures multiset(AsciiOnly(s))[c] == if c as int < 128 then multiset(s)[c] else 0
  {
    if s != [] {
      AsciiOnlyCounts(s[1..], c);
      assert s == [s[0]] + s[1..];
      assert multiset(s) == multiset([s[0]]) + multiset(s[1..]);
    }
  }
}
