/**
  The handful of Go standard-library string helpers that the command parser
  calls, stated over Unicode scalar values (`seq<char>`):
  `bytes.Replace` of one character, `bytes.TrimSpace` (with `unicode.IsSpace`),
  `strings.SplitN(s, sep, 2)`, `strings.Split`, `strings.Join` and
  `strings.ToLower`. Each helper is specified by what it computes, not by how.
 */
module GoStrings {

  /** `unicode.IsSpace`: the Latin-1 white space characters plus the
      characters with the Unicode White_Space property above Latin-1. The
      blank and the newline are white space; no visible ASCII character is,
      and neither is U+FFFD, the character Go decodes a malformed byte as. */
  predicate IsSpace(c: char): (b: bool)
    ensures c == ' ' || c == '\n' ==> b
    ensures b ==> !('!' <= c <= '~') && c != '\U{FFFD}'
  {
    || c == '\t' || c == '\n' || c == '\U{B}' || c == '\U{C}' || c == '\r' || c == ' '
    || c == '\U{85}' || c == '\U{A0}'
    || c == '\U{1680}' || ('\U{2000}' <= c <= '\U{200A}')
    || c == '\U{2028}' || c == '\U{2029}' || c == '\U{202F}' || c == '\U{205F}' || c == '\U{3000}'
  }

  /** Every character of `s` is white space. */
  predicate AllSpace(s: seq<char>) {
    forall i :: 0 <= i < |s| ==> IsSpace(s[i])
  }

  /** `s` neither starts nor ends with white space. */
  predicate Trimmed(s: seq<char>) {
    s == [] || (!IsSpace(s[0]) && !IsSpace(s[|s| - 1]))
  }

  /** `bytes.Replace(s, []byte{from}, []byte{to}, -1)`: every occurrence of
      `from` becomes `to`, every other character stays where it is. */
  function ReplaceAll(s: seq<char>, from: char, to: char): (r: seq<char>)
    ensures |r| == |s|
    ensures forall i :: 0 <= i < |s| ==> r[i] == (if s[i] == from then to else s[i])
    ensures from != to ==> from !in r
  {
    if s == [] then []
    else [if s[0] == from then to else s[0]] + ReplaceAll(s[1..], from, to)
  }

  /** Replacing is done character by character, so it distributes over concatenation. */
  lemma {:induction false} ReplaceAllConcat(a: seq<char>, b: seq<char>, from: char, to: char)
    ensures ReplaceAll(a + b, from, to) == ReplaceAll(a, from, to) + ReplaceAll(b, from, to)
  {
    if a == [] {
      assert a + b == b;
    } else {
      assert (a + b)[0] == a[0] && (a + b)[1..] == a[1..] + b;
      ReplaceAllConcat(a[1..], b, from, to);
    }
  }

  /** Turning a white space character into a blank keeps it white space. */
  lemma ReplaceNewlineKeepsSpace(s: seq<char>)
    requires AllSpace(s)
    ensures AllSpace(ReplaceAll(s, '\n', ' '))
  {
    var r := ReplaceAll(s, '\n', ' ');
    forall i | 0 <= i < |r| ensures IsSpace(r[i]) {
      assert IsSpace(s[i]);
    }
  }

  /** `bytes.TrimLeft(s, IsSpace)`: drops the leading white space. */
  function TrimLeft(s: seq<char>): (r: seq<char>)
    ensures |r| <= |s| && r == s[|s| - |r|..]
    ensures AllSpace(s[..|s| - |r|])
    ensures r == [] || !IsSpace(r[0])
  {
    if s != [] && IsSpace(s[0]) then TrimLeft(s[1..]) else s
  }

  /** `bytes.TrimRight(s, IsSpace)`: drops the trailing white space. */
  function TrimRight(s: seq<char>): (r: seq<char>)
    ensures |r| <= |s| && r == s[..|r|]
    ensures AllSpace(s[|r|..])
    ensures r == [] || !IsSpace(r[|r| - 1])
  {
    if s != [] && IsSpace(s[|s| - 1]) then TrimRight(s[..|s| - 1]) else s
  }

  /** `bytes.TrimSpace`: drops white space at both ends. */
  function TrimSpace(s: seq<char>): (r: seq<char>)
    ensures Trimmed(r)
    ensures |r| <= |s|
  {
    var l := TrimLeft(s);
    var r := TrimRight(l);
    assert r != [] ==> r[0] == l[0];
    r
  }

  /** What `TrimSpace` removed is white space on both sides of its result. */
  lemma TrimSpaceDecompose(s: seq<char>) returns (a: seq<char>, b: seq<char>)
    ensures s == a + TrimSpace(s) + b
    ensures AllSpace(a) && AllSpace(b)
  {
    var l := TrimLeft(s);
    var m := TrimRight(l);
    a := s[..|s| - |l|];
    b := l[|m|..];
    SliceJoin(s, |s| - |l|);
    SliceJoin(l, |m|);
    Regroup(s, a, l, m, b);
  }

  /** A sequence is its prefix followed by its suffix. */
  lemma SliceJoin(s: seq<char>, k: nat)
    requires k <= |s|
    ensures s == s[..k] + s[k..]
  {
  }

  /** Splitting the second half of a split splits the whole in three. */
  lemma Regroup(s: seq<char>, a: seq<char>, l: seq<char>, m: seq<char>, b: seq<char>)
    requires s == a + l && l == m + b
    ensures s == a + m + b
  {
  }

  /** Leading white space followed by a core that does not start with white
      space: `TrimLeft` leaves exactly the core. */
  lemma {:induction false} TrimLeftUnique(a: seq<char>, m: seq<char>)
    requires AllSpace(a)
    requires m == [] || !IsSpace(m[0])
    ensures TrimLeft(a + m) == m
    decreases |a|
  {
    if a == [] {
      assert a + m == m;
    } else {
      assert (a + m)[0] == a[0];
      assert (a + m)[1..] == a[1..] + m;
      TrimLeftUnique(a[1..], m);
    }
  }

  /** The mirror image of `TrimLeftUnique`. */
  lemma {:induction false} TrimRightUnique(m: seq<char>, b: seq<char>)
    requires AllSpace(b)
    requires m == [] || !IsSpace(m[|m| - 1])
    ensures TrimRight(m + b) == m
    decreases |b|
  {
    if b == [] {
      assert m + b == m;
    } else {
      var s := m + b;
      assert s[|s| - 1] == b[|b| - 1];
      assert s[..|s| - 1] == m + b[..|b| - 1];
      TrimRightUnique(m, b[..|b| - 1]);
    }
  }

  /** `TrimSpace` is characterised by its result: a trimmed core surrounded by
      white space on both sides is exactly what it returns. */
  lemma TrimSpaceUnique(a: seq<char>, m: seq<char>, b: seq<char>)
    requires AllSpace(a) && AllSpace(b) && Trimmed(m)
    ensures TrimSpace(a + m + b) == m
  {
    if m == [] {
      var s := a + m + b;
      assert s == a + b;
      AllSpaceConcat(a, b);
      TrimLeftUnique(s, []);
      assert s + [] == s;
    } else {
      assert a + m + b == a + (m + b);
      TrimLeftUnique(a, m + b);
      TrimRightUnique(m, b);
    }
  }

  /** White space followed by white space is white space. */
  lemma AllSpaceConcat(x: seq<char>, y: seq<char>)
    requires AllSpace(x) && AllSpace(y)
    ensures AllSpace(x + y)
  {
    forall i | 0 <= i < |x + y| ensures IsSpace((x + y)[i]) {
      if i < |x| { assert (x + y)[i] == x[i]; } else { assert (x + y)[i] == y[i - |x|]; }
    }
  }

  /** White space added around a string does not change what `TrimSpace` returns. */
  lemma TrimSpaceAbsorbs(p: seq<char>, s: seq<char>, q: seq<char>)
    requires AllSpace(p) && AllSpace(q)
    ensures TrimSpace(p + s + q) == TrimSpace(s)
  {
    var a, b := TrimSpaceDecompose(s);
    var m := TrimSpace(s);
    Regroup5(p, s, q, a, m, b);
    AllSpaceConcat(p, a);
    AllSpaceConcat(b, q);
    TrimSpaceUnique(p + a, m, b + q);
  }

  /** Wrapping `a + m + b` in `p` and `q` regroups as `(p + a) + m + (b + q)`. */
  lemma Regroup5(p: seq<char>, s: seq<char>, q: seq<char>, a: seq<char>, m: seq<char>, b: seq<char>)
    requires s == a + m + b
    ensures p + s + q == (p + a) + m + (b + q)
  {
  }

  /** `strings.SplitN(s, sep, 2)`: one piece when `sep` does not occur,
      otherwise the text before the first `sep` and everything after it. */
  function SplitOnce(s: seq<char>, sep: char): (r: seq<seq<char>>)
    ensures |r| == 1 || |r| == 2
    ensures |r| == 2 <==> sep in s
    ensures |r| == 1 ==> r[0] == s
    ensures |r| == 2 ==> s == r[0] + [sep] + r[1] && sep !in r[0]
  {
    if s == [] then [s]
    else if s[0] == sep then [[], s[1..]]
    else
      var rest := SplitOnce(s[1..], sep);
      assert s == [s[0]] + s[1..];
      if |rest| == 1 then [s] else [[s[0]] + rest[0], rest[1]]
  }

  /** `strings.Join(parts, sep)`. */
  function Join(parts: seq<seq<char>>, sep: char): seq<char> {
    if parts == [] then []
    else if |parts| == 1 then parts[0]
    else parts[0] + [sep] + Join(parts[1..], sep)
  }

  /** `strings.Split(s, sep)`: the pieces between the occurrences of `sep`;
      there is always at least one piece, possibly empty. */
  function Split(s: seq<char>, sep: char): (r: seq<seq<char>>)
    ensures |r| >= 1
    ensures Join(r, sep) == s
    ensures forall i :: 0 <= i < |r| ==> sep !in r[i]
    ensures r[|r| - 1] == [] <==> (s == [] || s[|s| - 1] == sep)
    decreases |s|
  {
    var parts := SplitOnce(s, sep);
    if |parts| == 1 then [s]
    else
      var tail := Split(parts[1], sep);
      assert parts[1] != [] ==> s[|s| - 1] == parts[1][|parts[1]| - 1];
      [parts[0]] + tail
  }

  /** Names joined into a text that does not end in white space, by a
      white-space separator, end with a non-empty name. */
  lemma JoinLastNonEmpty(names: seq<seq<char>>, sep: char)
    requires |names| >= 1 && IsSpace(sep)
    requires var s := Join(names, sep); s != [] && !IsSpace(s[|s| - 1])
    ensures names[|names| - 1] != []
  {
    JoinLast(names, sep);
  }

  /** A joined text whose last name is empty is empty or ends in the separator. */
  lemma {:induction false} JoinLast(names: seq<seq<char>>, sep: char)
    requires |names| >= 1
    ensures var s := Join(names, sep);
      names[|names| - 1] != [] || s == [] || s[|s| - 1] == sep
  {
    if |names| > 1 {
      JoinLast(names[1..], sep);
      assert names[1..][|names| - 2] == names[|names| - 1];
    }
  }

  /** `Split` is the only way to cut `s` at `sep`: any non-empty list of
      pieces free of `sep` that joins back to `s` is `Split(s, sep)`. */
  lemma {:induction false} SplitUnique(parts: seq<seq<char>>, sep: char)
    requires |parts| >= 1
    requires forall i :: 0 <= i < |parts| ==> sep !in parts[i]
    ensures Split(Join(parts, sep), sep) == parts
    decreases |parts|
  {
    var s := Join(parts, sep);
    var once := SplitOnce(s, sep);
    if |parts| == 1 {
      assert sep !in s;
    } else {
      var rest := Join(parts[1..], sep);
      assert s == parts[0] + [sep] + rest;
      assert sep in s;
      SplitOnceAt(parts[0], rest, sep);
      SplitUnique(parts[1..], sep);
      assert parts == [parts[0]] + parts[1..];
    }
  }

  /** Cutting at the first separator: when `x` holds no `sep`, `SplitOnce`
      cuts `x + [sep] + y` into exactly `x` and `y`. */
  lemma {:induction false} SplitOnceAt(x: seq<char>, y: seq<char>, sep: char)
    requires sep !in x
    ensures SplitOnce(x + [sep] + y, sep) == [x, y]
    decreases |x|
  {
    var s := x + [sep] + y;
    if x == [] {
      assert s == [sep] + y;
    } else {
      assert s[0] == x[0];
      assert s[1..] == x[1..] + [sep] + y;
      SplitOnceAt(x[1..], y, sep);
      assert [x[0]] + x[1..] == x;
    }
  }

  /** A character of one of the pieces is a character of the joined string. */
  lemma {:induction false} JoinContains(parts: seq<seq<char>>, sep: char, i: nat, c: char)
    requires i < |parts| && c in parts[i]
    ensures c in Join(parts, sep)
    decreases |parts|
  {
    if |parts| > 1 && i > 0 {
      JoinContains(parts[1..], sep, i - 1, c);
    }
  }

  /** A character that is neither the separator nor in any piece is not in
      the joined string. */
  lemma {:induction false} JoinExcludes(parts: seq<seq<char>>, sep: char, c: char)
    requires c != sep
    requires forall i :: 0 <= i < |parts| ==> c !in parts[i]
    ensures c !in Join(parts, sep)
    decreases |parts|
  {
    if |parts| > 1 {
      JoinExcludes(parts[1..], sep, c);
      assert c !in parts[0];
    }
  }

  /** `unicode.ToLower` as far as it can yield an ASCII letter: the ASCII
      capitals, U+0130 (capital I with dot above, whose simple lower case is
      'i') and U+212A (the Kelvin sign, whose simple lower case is 'k').
      Every other character is kept; the lower case of a non-ASCII character
      other than these two is never ASCII, so keeping it decides a comparison
      with an ASCII word exactly as the real lower case would. */
  function LowerChar(c: char): (r: char)
    ensures 'a' <= r <= 'z' <==> 'a' <= c <= 'z' || 'A' <= c <= 'Z' || c == '\U{130}' || c == '\U{212A}'
    ensures IsSpace(c) ==> r == c
  {
    if 'A' <= c <= 'Z' then (c as int + 32) as char
    else if c == '\U{130}' then 'i'
    else if c == '\U{212A}' then 'k'
    else c
  }

  /** ASCII upper case of one character, to name the capital of a letter. */
  function UpperChar(c: char): char {
    if 'a' <= c <= 'z' then (c as int - 32) as char else c
  }

  /** `strings.ToLower`, character by character. */
  function ToLower(s: seq<char>): (r: seq<char>)
    ensures |r| == |s|
    ensures forall i :: 0 <= i < |s| ==> r[i] == LowerChar(s[i])
  {
    if s == [] then [] else [LowerChar(s[0])] + ToLower(s[1..])
  }

  /** The characters that `ToLower` turns into the lower-case ASCII letter
      `l`: `l` itself, its capital, and U+0130 or U+212A for 'i' and 'k'. */
  predicate FoldsTo(c: char, l: char) {
    c == l || c == UpperChar(l) || (l == 'i' && c == '\U{130}') || (l == 'k' && c == '\U{212A}')
  }

  /** `LowerChar` hits a lower-case ASCII letter exactly from the characters `FoldsTo` lists. */
  lemma LowerCharMatches(c: char, l: char)
    requires 'a' <= l <= 'z'
    ensures LowerChar(c) == l <==> FoldsTo(c, l)
  {
  }

  /** A word matches a lower-case ASCII word `w` under `ToLower` exactly when
      it has the same length and each character folds to the letter of `w`
      at the same place. */
  lemma LowerMatches(s: seq<char>, w: seq<char>)
    requires forall i :: 0 <= i < |w| ==> 'a' <= w[i] <= 'z'
    ensures ToLower(s) == w <==> |s| == |w| && forall i :: 0 <= i < |s| ==> FoldsTo(s[i], w[i])
  {
    if |s| == |w| {
      var l := ToLower(s);
      forall i | 0 <= i < |s| ensures l[i] == w[i] <==> FoldsTo(s[i], w[i]) {
        LowerCharMatches(s[i], w[i]);
      }
      assert l == w <==> forall i :: 0 <= i < |s| ==> l[i] == w[i];
    }
  }
}
