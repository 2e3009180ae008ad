/** String operations the source takes from Python's `str` and `os.path`:
    lower-casing, suffix tests, `basename`, `split(".")[0]`, `strip()`,
    whitespace `split()`, and the decimal rendering of a table index. */
module Text {

  /** The ASCII characters that Python's `str.strip()` and `str.split()`
      treat as whitespace. */
  const PyWhitespace: set<char> :=
    {' ', '\t', '\n', '\r', '\U{B}', '\U{C}', '\U{1C}', '\U{1D}', '\U{1E}', '\U{1F}'}

  /** The field separators of a whitespace-delimited data line. */
  const FieldSeparators: set<char> := {' ', '\t'}

  function LowerChar(c: char): char
  {
    if 'A' <= c <= 'Z' then (c as int - 'A' as int + 'a' as int) as char else c
  }

  /** `str.lower()` on ASCII letters; every other character is kept. */
  function Lower(s: string): (r: string)
    ensures |r| == |s|
    ensures forall i :: 0 <= i < |s| ==> r[i] == LowerChar(s[i])
  {
    seq(|s|, i requires 0 <= i < |s| => LowerChar(s[i]))
  }

  lemma LowerAppend(a: string, b: string)
    ensures Lower(a + b) == Lower(a) + Lower(b)
  {
  }

  lemma LowerIdempotent(s: string)
    ensures Lower(Lower(s)) == Lower(s)
  {
  }

  predicate EndsWith(s: string, suffix: string)
  {
    |suffix| <= |s| && s[|s| - |suffix|..] == suffix
  }

  /** The longest suffix of `s` holding no `sep`: the text after its last `sep`. */
  function AfterLast(s: string, sep: char): (r: string)
    ensures sep !in r && |r| <= |s|
  {
    if s == [] || s[|s| - 1] == sep then []
    else AfterLast(s[..|s| - 1], sep) + [s[|s| - 1]]
  }

  /** `AfterLast` is the suffix of `s` that starts right after the last `sep`
      (or all of `s` when there is none). */
  lemma {:induction false} AfterLastIsSuffix(s: string, sep: char)
    ensures var r := AfterLast(s, sep);
      r == s[|s| - |r|..] && (|r| < |s| ==> s[|s| - |r| - 1] == sep)
  {
    if s != [] && s[|s| - 1] != sep {
      var init := s[..|s| - 1];
      AfterLastIsSuffix(init, sep);
      var r0 := AfterLast(init, sep);
      var k := |init| - |r0|;
      assert init[k..] == s[k..|s| - 1];
      assert s[k..] == s[k..|s| - 1] + [s[|s| - 1]];
    }
  }

  lemma {:induction false} AfterLastOfSuffixed(c: string, sep: char, s: string)
    requires sep !in s
    ensures AfterLast(c + [sep] + s, sep) == s
  {
    var x := c + [sep] + s;
    if s != [] {
      var init := s[..|s| - 1];
      assert x[..|x| - 1] == c + [sep] + init;
      AfterLastOfSuffixed(c, sep, init);
      assert s == init + [s[|s| - 1]];
    }
  }

  /** `os.path.basename`: the text after the last `/`. */
  function Basename(path: string): string
  {
    AfterLast(path, '/')
  }

  /** `name.split(".")[0]`: the longest prefix of `name` holding no `.`. */
  function Stem(name: string): (r: string)
    ensures '.' !in r
    ensures |r| <= |name| && r == name[..|r|]
    ensures |r| < |name| ==> name[|r|] == '.'
  {
    if name == [] || name[0] == '.' then [] else [name[0]] + Stem(name[1..])
  }

  /** How many leading characters of `s` belong to `ws`. */
  function LeadingIn(s: string, ws: set<char>): (n: nat)
    ensures n <= |s|
    ensures forall i :: 0 <= i < n ==> s[i] in ws
    ensures n < |s| ==> s[n] !in ws
  {
    if s != [] && s[0] in ws then 1 + LeadingIn(s[1..], ws) else 0
  }

  /** How many trailing characters of `s` belong to `ws`. */
  function TrailingIn(s: string, ws: set<char>): (n: nat)
    ensures n <= |s|
    ensures forall i :: |s| - n <= i < |s| ==> s[i] in ws
    ensures n < |s| ==> s[|s| - n - 1] !in ws
  {
    if s != [] && s[|s| - 1] in ws then 1 + TrailingIn(s[..|s| - 1], ws) else 0
  }

  /** `str.strip()`: drops the leading, then the trailing whitespace. */
  function Strip(s: string): (r: string)
    ensures |r| <= |s|
  {
    var l := s[LeadingIn(s, PyWhitespace)..];
    l[..|l| - TrailingIn(l, PyWhitespace)]
  }

  /** A stripped string is empty exactly when the input is all whitespace,
      and otherwise starts and ends with a non-whitespace character. */
  lemma StripBounds(s: string)
    ensures var r := Strip(s);
      (r == [] <==> forall i :: 0 <= i < |s| ==> s[i] in PyWhitespace) &&
      (r != [] ==> r[0] !in PyWhitespace && r[|r| - 1] !in PyWhitespace)
  {
    var n := LeadingIn(s, PyWhitespace);
    var l := s[n..];
    var m := TrailingIn(l, PyWhitespace);
    var r := l[..|l| - m];
    if r == [] {
      forall i | 0 <= i < |s|
        ensures s[i] in PyWhitespace
      {
        if i >= n {
          assert s[i] == l[i - n];
        }
      }
    } else {
      assert r[0] == l[0];
      assert r[|r| - 1] == l[|l| - m - 1];
    }
  }

  /** `strip()` removes only surrounding whitespace: the result is the part of
      `s` after its leading whitespace, and everything after it is whitespace. */
  lemma StripIsInfix(s: string)
    ensures var n := LeadingIn(s, PyWhitespace);
      n + |Strip(s)| <= |s| && Strip(s) == s[n..n + |Strip(s)|] &&
      forall k :: n + |Strip(s)| <= k < |s| ==> s[k] in PyWhitespace
  {
    var n := LeadingIn(s, PyWhitespace);
    var l := s[n..];
    var m := TrailingIn(l, PyWhitespace);
    var e := n + |l| - m;
    assert Strip(s) == l[..|l| - m];
    SliceOfSuffix(s, n, e);
    forall k | e <= k < |s|
      ensures s[k] in PyWhitespace
    {
      assert s[k] == l[k - n];
    }
  }

  lemma SliceOfSuffix(s: string, n: nat, e: nat)
    requires n <= e <= |s|
    ensures s[n..][..e - n] == s[n..e]
  {
  }

  /** A string with no surrounding whitespace is its own `strip()`. */
  lemma StripTrimmed(s: string)
    requires s == [] || (s[0] !in PyWhitespace && s[|s| - 1] !in PyWhitespace)
    ensures Strip(s) == s
  {
  }

  lemma StripIdempotent(s: string)
    ensures Strip(Strip(s)) == Strip(s)
  {
    var t := Strip(s);
    StripBounds(s);
    StripTrimmed(t);
  }

  /** The longest prefix of `s` holding no character of `ws`. */
  function Word(s: string, ws: set<char>): (r: string)
    ensures |r| <= |s| && r == s[..|r|]
    ensures forall i :: 0 <= i < |r| ==> r[i] !in ws
    ensures |r| < |s| ==> s[|r|] in ws
  {
    if s == [] || s[0] in ws then [] else [s[0]] + Word(s[1..], ws)
  }

  /** Python's argument-less `split()` with `ws` as the whitespace: the
      maximal runs of non-whitespace characters, in order. */
  function Tokens(s: string, ws: set<char>): (r: seq<string>)
    ensures forall k :: 0 <= k < |r| ==> WordFree(r[k], ws)
    decreases |s|
  {
    if s == [] then []
    else if s[0] in ws then Tokens(s[1..], ws)
    else
      var w := Word(s, ws);
      var rest := Tokens(s[|w|..], ws);
      assert forall k :: 0 < k < |rest| + 1 ==> ([w] + rest)[k] == rest[k - 1];
      [w] + rest
  }

  /** A whitespace character ends the first word of anything it follows. */
  lemma {:induction false} WordBeforeSeparator(a: string, c: char, b: string, ws: set<char>)
    requires c in ws
    ensures Word(a + [c] + b, ws) == Word(a, ws)
  {
    if a != [] && a[0] !in ws {
      assert (a + [c] + b)[1..] == a[1..] + [c] + b;
      WordBeforeSeparator(a[1..], c, b, ws);
    }
  }

  /** `split()` of a text cut at a whitespace character is the split of the
      part before it followed by the split of the part after it, however
      many whitespace characters surround the cut. */
  lemma {:induction false} TokensSplitAt(a: string, c: char, b: string, ws: set<char>)
    requires c in ws
    ensures Tokens(a + [c] + b, ws) == Tokens(a, ws) + Tokens(b, ws)
    decreases |a|
  {
    var s := a + [c] + b;
    if a == [] {
      assert s[1..] == b;
    } else if a[0] in ws {
      assert s[1..] == a[1..] + [c] + b;
      TokensSplitAt(a[1..], c, b, ws);
    } else {
      var w := Word(a, ws);
      WordBeforeSeparator(a, c, b, ws);
      assert s[|w|..] == a[|w|..] + [c] + b;
      TokensSplitAt(a[|w|..], c, b, ws);
    }
  }

  /** A line splits into no token exactly when it is all whitespace. */
  lemma {:induction false} TokensEmpty(s: string, ws: set<char>)
    ensures Tokens(s, ws) == [] <==> forall i :: 0 <= i < |s| ==> s[i] in ws
  {
    if s != [] && s[0] in ws {
      TokensEmpty(s[1..], ws);
      assert forall i :: 0 < i < |s| ==> s[i] == s[1..][i - 1];
    }
  }

  /** The words separated by single copies of `sep`. */
  function Join(words: seq<string>, sep: char): string
  {
    if words == [] then []
    else if |words| == 1 then words[0]
    else words[0] + [sep] + Join(words[1..], sep)
  }

  predicate WordFree(w: string, ws: set<char>)
  {
    w != [] && forall i :: 0 <= i < |w| ==> w[i] !in ws
  }

  lemma {:induction false} WordOfPrefix(w: string, rest: string, ws: set<char>)
    requires forall i :: 0 <= i < |w| ==> w[i] !in ws
    requires rest == [] || rest[0] in ws
    ensures Word(w + rest, ws) == w
  {
    if w == [] {
      assert w + rest == rest;
    } else {
      assert (w + rest)[0] == w[0];
      assert (w + rest)[1..] == w[1..] + rest;
      WordOfPrefix(w[1..], rest, ws);
    }
  }

  lemma WordOfJoined(w: string, rest: string, ws: set<char>)
    requires WordFree(w, ws)
    requires rest == [] || rest[0] in ws
    ensures Word(w + rest, ws) == w
  {
    WordOfPrefix(w, rest, ws);
  }

  lemma TokensOfWord(w: string, ws: set<char>)
    requires WordFree(w, ws)
    ensures Tokens(w, ws) == [w]
  {
    WordOfJoined(w, [], ws);
    assert w + [] == w;
    assert w[|w|..] == [];
  }

  lemma JoinStartsWithWord(words: seq<string>, sep: char, ws: set<char>)
    requires words != []
    requires forall k :: 0 <= k < |words| ==> WordFree(words[k], ws)
    ensures Join(words, sep) != [] && Join(words, sep)[0] !in ws
  {
    assert WordFree(words[0], ws);
    if |words| > 1 {
      assert Join(words, sep) == words[0] + ([sep] + Join(words[1..], sep));
    }
  }

  lemma TokensStep(w: string, sep: char, tail: string, ws: set<char>)
    requires WordFree(w, ws) && sep in ws
    requires tail != [] && tail[0] !in ws
    ensures Tokens(w + ([sep] + tail), ws) == [w] + Tokens(tail, ws)
  {
    var rest := [sep] + tail;
    var s := w + rest;
    assert s[0] == w[0];
    WordOfJoined(w, rest, ws);
    assert s[|w|..] == rest;
    assert rest[1..] == tail;
  }

  /** Splitting undoes joining: words that are non-empty and free of
      whitespace, joined by a whitespace character, split back into the
      same words. */
  lemma {:induction false} TokensOfJoin(words: seq<string>, sep: char, ws: set<char>)
    requires sep in ws
    requires forall k :: 0 <= k < |words| ==> WordFree(words[k], ws)
    ensures Tokens(Join(words, sep), ws) == words
  {
    if words == [] {
    } else {
      var w := words[0];
      assert WordFree(w, ws);
      var s := Join(words, sep);
      if |words| == 1 {
        assert s == w;
        TokensOfWord(w, ws);
      } else {
        var tail := Join(words[1..], sep);
        assert s == w + ([sep] + tail);
        TokensOfJoin(words[1..], sep, ws);
        JoinStartsWithWord(words[1..], sep, ws);
        TokensStep(w, sep, tail, ws);
      }
    }
  }

  function DigitChar(d: nat): char
    requires d < 10
  {
    ('0' as int + d) as char
  }

  predicate IsDigits(s: string)
  {
    forall i :: 0 <= i < |s| ==> '0' <= s[i] <= '9'
  }

  /** The decimal rendering Python's `f"{i}"` gives a non-negative integer. */
  function NatToString(n: nat): (r: string)
    ensures r != [] && IsDigits(r)
    ensures n > 0 ==> r[0] != '0'
  {
    if n < 10 then [DigitChar(n)] else NatToString(n / 10) + [DigitChar(n % 10)]
  }

  /** Reads a string of decimal digits back as a number. */
  function ParseNat(s: string): nat
    requires IsDigits(s)
  {
    if s == [] then 0 else ParseNat(s[..|s| - 1]) * 10 + (s[|s| - 1] as int - '0' as int)
  }

  lemma {:induction false} ParseNatToString(n: nat)
    ensures ParseNat(NatToString(n)) == n
  {
    if n >= 10 {
      var s := NatToString(n);
      assert s[..|s| - 1] == NatToString(n / 10);
      ParseNatToString(n / 10);
    }
  }

  lemma NatToStringInjective(m: nat, n: nat)
    ensures NatToString(m) == NatToString(n) ==> m == n
  {
    ParseNatToString(m);
    ParseNatToString(n);
  }

  /** A string of the form `c + [sep] + s`, where `s` holds no `sep`, is cut
      unambiguously at its last `sep`. */
  lemma SplitAtLastSeparator(c1: string, s1: string, c2: string, s2: string, sep: char)
    requires sep !in s1 && sep !in s2
    requires c1 + [sep] + s1 == c2 + [sep] + s2
    ensures c1 == c2 && s1 == s2
  {
    var x := c1 + [sep] + s1;
    AfterLastOfSuffixed(c1, sep, s1);
    AfterLastOfSuffixed(c2, sep, s2);
    assert c1 == x[..|c1|] == c2;
  }
}
