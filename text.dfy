/**
  The JavaScript string primitives that the command interpreter and the
  diagram engine are written with (`toLowerCase`, `trim`, the `\s` class,
  `includes`, `indexOf`, `split`, `join`), as functions on `seq<char>`.
 */
module Text {

  datatype Option<+T> = None | Some(value: T)

  /** JavaScript's `\s` class, which is also the set `trim()` removes:
      the WhiteSpace and LineTerminator code points of ECMAScript. */
  predicate IsSpace(c: char) {
    || c == ' ' || c == '\t' || c == '\n' || c == '\r' || c == '\U{B}' || c == '\U{C}'
    || c == '\U{A0}' || c == '\U{1680}' || ('\U{2000}' <= c <= '\U{200A}')
    || c == '\U{2028}' || c == '\U{2029}' || c == '\U{202F}' || c == '\U{205F}'
    || c == '\U{3000}' || c == '\U{FEFF}'
  }

  /** The characters that `.` in a regular expression without the `s` flag does not match. */
  predicate IsLineTerminator(c: char) {
    c == '\n' || c == '\r' || c == '\U{2028}' || c == '\U{2029}'
  }

  predicate IsUpper(c: char) { 'A' <= c <= 'Z' }

  /** `\d` */
  predicate IsDigit(c: char) { '0' <= c <= '9' }

  /** `\w`, the characters on one side of a `\b` word boundary */
  predicate IsWordChar(c: char) { 'a' <= c <= 'z' || 'A' <= c <= 'Z' || IsDigit(c) || c == '_' }

  predicate NoUpper(s: string) { forall c | c in s :: !IsUpper(c) }
  predicate NoSpace(s: string) { forall c | c in s :: !IsSpace(c) }
  predicate NoLineTerminator(s: string) { forall c | c in s :: !IsLineTerminator(c) }

  /** Every character of `r` is a character of `s`. */
  predicate CharsFrom(r: string, s: string) { forall c | c in r :: c in s }

  /** `toLowerCase()` on one character, restricted to the ASCII letters. */
  function ToLower(c: char): (r: char)
    ensures !IsUpper(r)
    ensures IsSpace(r) <==> IsSpace(c)
    ensures IsLineTerminator(r) <==> IsLineTerminator(c)
    ensures IsUpper(c) ==> r as int == c as int + 32
    ensures !IsUpper(c) ==> r == c
  {
    if IsUpper(c) then (c as int + 32) as char else c
  }

  /** `s.toLowerCase()` */
  function Lower(s: string): (r: string)
    ensures |r| == |s|
    ensures forall i :: 0 <= i < |s| ==> r[i] == ToLower(s[i])
    ensures NoUpper(r)
  {
    seq(|s|, i requires 0 <= i < |s| => ToLower(s[i]))
  }

  lemma LowerOfLower(s: string)
    requires NoUpper(s)
    ensures Lower(s) == s
  {
    assert forall i | 0 <= i < |s| :: Lower(s)[i] == s[i] by {
      forall i | 0 <= i < |s| ensures Lower(s)[i] == s[i] { assert s[i] in s; }
    }
  }

  /** Drops the leading `\s` characters. */
  function TrimStart(s: string): (r: string)
    decreases |s|
    ensures |r| <= |s| && r == s[|s| - |r|..]
    ensures |r| > 0 ==> !IsSpace(r[0])
    ensures forall i :: 0 <= i < |s| - |r| ==> IsSpace(s[i])
  {
    if |s| > 0 && IsSpace(s[0]) then TrimStart(s[1..]) else s
  }

  /** Drops the trailing `\s` characters. */
  function TrimEnd(s: string): (r: string)
    decreases |s|
    ensures |r| <= |s| && r == s[..|r|]
    ensures |r| > 0 ==> !IsSpace(r[|r| - 1])
    ensures forall i :: |r| <= i < |s| ==> IsSpace(s[i])
  {
    if |s| > 0 && IsSpace(s[|s| - 1]) then TrimEnd(s[..|s| - 1]) else s
  }

  predicate Trimmed(s: string) {
    |s| > 0 ==> !IsSpace(s[0]) && !IsSpace(s[|s| - 1])
  }

  /** `s.trim()`: the infix of `s` between its leading and its trailing white space. */
  function Trim(s: string): (r: string)
    ensures Trimmed(r)
    ensures Contains(s, r)
    ensures CharsFrom(r, s)
    ensures r == "" <==> NoSpaceless(s)
  {
    var t := TrimStart(s);
    var r := TrimEnd(t);
    TrimInfix(s, t, r);
    TrimEmpty(s, t, r);
    r
  }

  /** A prefix of a suffix of `s` is part of `s`. */
  lemma TrimInfix(s: string, t: string, r: string)
    requires |t| <= |s| && t == s[|s| - |t|..] && |r| <= |t| && r == t[..|r|]
    ensures Contains(s, r) && CharsFrom(r, s)
  {
    var i := |s| - |t|;
    assert r == s[i..i + |r|];
    ContainsSlice(s, i, i + |r|);
    SliceChars(s, i, i + |r|);
  }

  /** Trimming empties exactly the all-white-space texts. */
  lemma TrimEmpty(s: string, t: string, r: string)
    requires |t| <= |s| && t == s[|s| - |t|..] && forall i :: 0 <= i < |s| - |t| ==> IsSpace(s[i])
    requires |t| > 0 ==> !IsSpace(t[0])
    requires |r| <= |t| && r == t[..|r|] && (|r| > 0 ==> !IsSpace(r[0]))
    requires forall i :: |r| <= i < |t| ==> IsSpace(t[i])
    ensures r == "" <==> NoSpaceless(s)
  {
    if r == "" {
      assert t == "";
    } else {
      assert s[|s| - |t|] == r[0];
    }
  }

  /** Every character is white space (the strings that `trim()` empties). */
  predicate NoSpaceless(s: string) { forall i :: 0 <= i < |s| ==> IsSpace(s[i]) }

  lemma TrimTrimmed(s: string)
    requires Trimmed(s)
    ensures Trim(s) == s
  {
  }

  lemma NoUpperInfix(r: string, s: string)
    requires CharsFrom(r, s) && NoUpper(s)
    ensures NoUpper(r)
  {
  }

  /** `p` occurs in `s` at index `i`. */
  predicate OccursAt(s: string, p: string, i: nat) {
    i + |p| <= |s| && s[i..i + |p|] == p
  }

  /** The first index at or after `i` where `p` occurs. */
  function IndexFrom(s: string, p: string, i: nat): (r: Option<nat>)
    decreases |s| - i
    ensures r.Some? ==> i <= r.value && OccursAt(s, p, r.value)
    ensures r.Some? ==> forall j :: i <= j < r.value ==> !OccursAt(s, p, j)
    ensures r.None? ==> forall j :: i <= j ==> !OccursAt(s, p, j)
  {
    if i + |p| > |s| then None
    else if s[i..i + |p|] == p then Some(i)
    else IndexFrom(s, p, i + 1)
  }

  /** `s.indexOf(p)`, with -1 as None. */
  function IndexOf(s: string, p: string): (r: Option<nat>)
    ensures r.Some? ==> OccursAt(s, p, r.value) && forall j :: 0 <= j < r.value ==> !OccursAt(s, p, j)
    ensures r.None? ==> forall j :: 0 <= j ==> !OccursAt(s, p, j)
  {
    IndexFrom(s, p, 0)
  }

  /** `s.includes(p)` */
  predicate Contains(s: string, p: string) {
    IndexOf(s, p).Some?
  }

  lemma FoundAt(s: string, p: string, i: nat)
    requires OccursAt(s, p, i)
    ensures Contains(s, p)
  {
  }

  lemma ContainsWitness(s: string, p: string) returns (i: nat)
    requires Contains(s, p)
    ensures OccursAt(s, p, i)
  {
    i := IndexOf(s, p).value;
  }

  /** A character of the pattern that the text lacks rules an occurrence out. */
  lemma NotContainsChar(s: string, p: string, c: char)
    requires c in p && c !in s
    ensures !Contains(s, p)
  {
    var k :| 0 <= k < |p| && p[k] == c;
    forall i: nat ensures !OccursAt(s, p, i) {
      if i + |p| <= |s| { assert s[i..i + |p|][k] == s[i + k]; }
    }
  }

  /** Between strings of the same length, inclusion is equality. */
  lemma ContainsSameLength(s: string, p: string)
    requires |s| == |p|
    ensures Contains(s, p) <==> s == p
  {
    if s == p { assert OccursAt(s, p, 0); }
  }

  /** Inclusion is transitive. */
  lemma ContainsTrans(s: string, r: string, p: string)
    requires Contains(s, r) && Contains(r, p)
    ensures Contains(s, p)
  {
    var i := ContainsWitness(s, r);
    var j := ContainsWitness(r, p);
    assert r == s[i..i + |r|];
    var a, b := s[i + j..i + j + |p|], r[j..j + |p|];
    forall k | 0 <= k < |p| ensures a[k] == b[k] {
      assert s[i + j + k] == r[j + k];
    }
    assert a == b;
    FoundAt(s, p, i + j);
  }

  lemma ContainsSelf(s: string)
    ensures Contains(s, s)
  {
    FoundAt(s, s, 0);
  }

  lemma ContainsSlice(s: string, i: nat, j: nat)
    requires i <= j <= |s|
    ensures Contains(s, s[i..j])
  {
    FoundAt(s, s[i..j], i);
  }

  /** The index of the first occurrence of `c`. */
  function FirstIndex(s: string, c: char): (i: nat)
    requires c in s
    ensures i < |s| && s[i] == c && c !in s[..i]
  {
    if s[0] == c then 0 else 1 + FirstIndex(s[1..], c)
  }

  /** `s.split(c)` for a one-character separator. */
  function Split(s: string, c: char): (r: seq<string>)
    decreases |s|
    ensures |r| >= 1
    ensures forall k :: 0 <= k < |r| ==> c !in r[k] && CharsFrom(r[k], s)
  {
    if c !in s then [s]
    else
      var i := FirstIndex(s, c);
      [s[..i]] + Split(s[i + 1..], c)
  }

  /** `parts.join(sep)` */
  function Join(parts: seq<string>, sep: string): string
    decreases |parts|
  {
    if |parts| == 0 then ""
    else if |parts| == 1 then parts[0]
    else parts[0] + sep + Join(parts[1..], sep)
  }

  /** Splitting on the separator undoes joining with it. */
  lemma {:induction false} SplitJoin(parts: seq<string>, c: char)
    requires |parts| >= 1
    requires forall k :: 0 <= k < |parts| ==> c !in parts[k]
    ensures Split(Join(parts, [c]), c) == parts
  {
    if |parts| > 1 {
      JoinFirstSeparator(parts, c);
      SplitJoin(parts[1..], c);
    }
  }

  /** The first separator of a join follows its first part. */
  lemma JoinFirstSeparator(parts: seq<string>, c: char)
    requires |parts| > 1 && c !in parts[0]
    ensures var s := Join(parts, [c]);
            c in s && FirstIndex(s, c) == |parts[0]| &&
            s[..|parts[0]|] == parts[0] && s[|parts[0]| + 1..] == Join(parts[1..], [c])
  {
    var s := Join(parts, [c]);
    var n := |parts[0]|;
    assert s == parts[0] + [c] + Join(parts[1..], [c]);
    assert s[..n] == parts[0];
    assert s[n] == c;
  }

  /** The first index at or after `i` whose character is white space, or `|s|`. */
  function SpaceFrom(s: string, i: nat): (j: nat)
    requires i <= |s|
    decreases |s| - i
    ensures i <= j <= |s| && (j < |s| ==> IsSpace(s[j]))
    ensures forall k :: i <= k < j ==> !IsSpace(s[k])
  {
    if i == |s| || IsSpace(s[i]) then i else SpaceFrom(s, i + 1)
  }

  /** The end of the run of white space that starts at `i`. */
  function SpaceRunEnd(s: string, i: nat): (j: nat)
    requires i <= |s|
    decreases |s| - i
    ensures i <= j <= |s| && (j < |s| ==> !IsSpace(s[j]))
    ensures forall k :: i <= k < j ==> IsSpace(s[k])
  {
    if i == |s| || !IsSpace(s[i]) then i else SpaceRunEnd(s, i + 1)
  }

  /** `s.split(/\s+/)`: the pieces between the maximal runs of white space. */
  function SplitWs(s: string): (r: seq<string>)
    decreases |s|
    ensures |r| >= 1
    ensures forall k :: 0 <= k < |r| ==> NoSpace(r[k]) && CharsFrom(r[k], s)
    ensures NoSpace(s) ==> r == [s]
  {
    var i := SpaceFrom(s, 0);
    if i == |s| then
      assert s[..i] == s;
      [s]
    else
      var j := SpaceRunEnd(s, i);
      assert forall c | c in s[..i] :: !IsSpace(c);
      [s[..i]] + SplitWs(s[j..])
  }

  predicate StartsWith(s: string, p: string) {
    |p| <= |s| && s[..|p|] == p
  }

  /** `r` is a suffix of `s` */
  predicate IsSuffix(r: string, s: string) {
    |r| <= |s| && s[|s| - |r|..] == r
  }

  lemma SuffixTrans(t: string, r: string, s: string)
    requires IsSuffix(t, r) && IsSuffix(r, s)
    ensures IsSuffix(t, s)
  {
    assert s[|s| - |t|..] == s[|s| - |r|..][|r| - |t|..];
  }

  /** The end of the line that index `i` is on: the first line terminator at
      or after `i`, or `|s|`. */
  function LineEnd(s: string, i: nat): (e: nat)
    requires i <= |s|
    decreases |s| - i
    ensures i <= e <= |s| && (e < |s| ==> IsLineTerminator(s[e]))
    ensures forall k :: i <= k < e ==> !IsLineTerminator(s[k])
  {
    if i == |s| || IsLineTerminator(s[i]) then i else LineEnd(s, i + 1)
  }

  /** An occurrence of `p` in `a + b` lies in `a` or in `b` when the last
      character of `a` or the first of `b` does not occur in `p`. */
  lemma NoStraddle(a: string, b: string, p: string)
    requires (|a| > 0 && a[|a| - 1] !in p) || (|b| > 0 && b[0] !in p)
    ensures Contains(a + b, p) ==> Contains(a, p) || Contains(b, p)
  {
    if Contains(a + b, p) {
      var i := ContainsWitness(a + b, p);
      forall k | i <= k < i + |p| ensures (a + b)[k] in p {
        assert (a + b)[k] == p[k - i];
      }
      if |a| > 0 { assert (a + b)[|a| - 1] == a[|a| - 1]; }
      if |b| > 0 { assert (a + b)[|a|] == b[0]; }
      if i + |p| <= |a| {
        assert (a + b)[i..i + |p|] == a[i..i + |p|];
        FoundAt(a, p, i);
      } else if i >= |a| {
        assert (a + b)[i..i + |p|] == b[i - |a|..i - |a| + |p|];
        FoundAt(b, p, i - |a|);
      }
    }
  }

  lemma SliceChars(s: string, i: nat, j: nat)
    requires i <= j <= |s|
    ensures CharsFrom(s[i..j], s)
  {
    forall c | c in s[i..j] ensures c in s {
      var k :| 0 <= k < j - i && s[i..j][k] == c;
      assert s[i + k] == c;
    }
  }

  /** An occurrence in a slice is an occurrence in the whole string. */
  lemma OccursInSlice(s: string, i: nat, j: nat, p: string, k: nat)
    requires i <= j <= |s| && OccursAt(s[i..j], p, k)
    ensures OccursAt(s, p, i + k) && Contains(s, p)
  {
    var a, b := s[i + k..i + k + |p|], s[i..j][k..k + |p|];
    forall m | 0 <= m < |p| ensures a[m] == b[m] {
      assert a[m] == s[i + k + m];
    }
    assert a == b;
    FoundAt(s, p, i + k);
  }

  lemma ContainsChars(s: string, r: string)
    requires Contains(s, r)
    ensures CharsFrom(r, s)
  {
    var i := ContainsWitness(s, r);
    SliceChars(s, i, i + |r|);
  }

  lemma SliceOfSlice(s: string, i: nat, j: nat, m: nat, n: nat)
    requires i <= j <= |s| && m <= n <= j - i
    ensures s[i..j][m..n] == s[i + m..i + n]
  {
    var a, b := s[i..j][m..n], s[i + m..i + n];
    forall k | 0 <= k < n - m ensures a[k] == b[k] {
      assert a[k] == s[i + m + k];
    }
  }

  /** Nonempty words without white space. */
  predicate Words(ws: seq<string>) {
    forall k :: 0 <= k < |ws| ==> ws[k] != "" && NoSpace(ws[k])
  }

  lemma JoinCons(ws: seq<string>, sep: string)
    requires |ws| >= 2
    ensures Join(ws, sep) == ws[0] + sep + Join(ws[1..], sep)
  {
  }

  /** A pattern without spaces occurs in words joined by spaces only inside one of the words. */
  lemma {:induction false} JoinLacks(ws: seq<string>, p: string)
    requires |ws| >= 1 && p != "" && ' ' !in p
    requires forall k :: 0 <= k < |ws| ==> !Contains(ws[k], p)
    ensures !Contains(Join(ws, " "), p)
  {
    if |ws| > 1 {
      JoinLacks(ws[1..], p);
      var j := Join(ws[1..], " ");
      assert Join(ws, " ") == (ws[0] + " ") + j;
      NoStraddle(ws[0] + " ", j, p);
      NoStraddle(ws[0], " ", p);
      NotContainsChar(" ", p, p[0]);
    }
  }

  /** `" " + v + " "` occurs in words joined by single spaces only where an
      inner word is `v`. */
  lemma {:induction false} JoinLacksSpaced(ws: seq<string>, v: string)
    requires |ws| >= 1 && Words(ws) && v != "" && NoSpace(v)
    requires forall k :: 0 < k < |ws| - 1 ==> ws[k] != v
    ensures !Contains(Join(ws, " "), " " + v + " ")
  {
    var p := " " + v + " ";
    var s := Join(ws, " ");
    var w := ws[0];
    assert NoSpace(w);
    if |ws| == 1 {
      assert ' ' !in s;
      NotContainsChar(s, p, ' ');
    } else {
      var j := Join(ws[1..], " ");
      assert s == w + " " + j;
      JoinLacksSpaced(ws[1..], v);
      assert Words(ws[1..]);
      var w1 := ws[1];
      assert NoSpace(w1);
      if |ws| > 2 {
        assert j == w1 + " " + Join(ws[2..], " ");
        assert j[..|w1|] == w1 && j[|w1|] == ' ';
      } else {
        assert j == w1;
      }
      forall i: nat ensures !OccursAt(s, p, i) {
        SpacedNotAt(w, j, w1, v, i);
      }
    }
  }

  /** `" " + v + " "` does not occur in `w + " " + j` when it does not occur
      in `j`, `w` has no space, and `j` starts with the word `w1`, which is
      either all of `j` or a word other than `v` followed by a space. */
  lemma SpacedNotAt(w: string, j: string, w1: string, v: string, i: nat)
    requires NoSpace(w) && NoSpace(w1) && w1 != "" && v != "" && NoSpace(v)
    requires j == w1 || (|w1| < |j| && j[..|w1|] == w1 && j[|w1|] == ' ' && w1 != v)
    requires !Contains(j, " " + v + " ")
    ensures !OccursAt(w + " " + j, " " + v + " ", i)
  {
    var p := " " + v + " ";
    var s := w + " " + j;
    if i + |p| <= |s| {
      if i < |w| {
        assert s[i] == w[i] && w[i] in w;
        assert s[i..i + |p|][0] == s[i];
      } else if i > |w| {
        assert s[i..i + |p|] == j[i - |w| - 1..i - |w| - 1 + |p|];
        assert !OccursAt(j, p, i - |w| - 1);
      } else if |v| < |w1| {
        assert s[i + 1 + |v|] == w1[|v|] && w1[|v|] in w1;
        assert s[i..i + |p|][1 + |v|] == s[i + 1 + |v|];
      } else if |v| > |w1| {
        assert s[i + 1 + |w1|] == ' ';
        assert s[i..i + |p|][1 + |w1|] == ' ';
        assert v[|w1|] in v;
      } else {
        assert s[i + 1..i + 1 + |v|] == w1;
        assert s[i..i + |p|][1..1 + |v|] == s[i + 1..i + 1 + |v|];
        assert p[1..1 + |v|] == v;
      }
    }
  }

  /** A pattern longer than the text does not occur in it. */
  lemma ShortLacks(s: string, p: string)
    requires |s| < |p|
    ensures !Contains(s, p)
  {
  }

  // ---------------------------------------------------------------------------
  // Array.prototype.find and Array.prototype.filter

  /** The index of the first element from `i` on that satisfies `p`. */
  function FindFrom<T>(xs: seq<T>, p: T -> bool, i: nat): (r: Option<nat>)
    requires i <= |xs|
    decreases |xs| - i
    ensures r.Some? ==> i <= r.value < |xs| && p(xs[r.value])
    ensures r.Some? ==> forall j :: i <= j < r.value ==> !p(xs[j])
    ensures r.None? ==> forall j :: i <= j < |xs| ==> !p(xs[j])
  {
    if i == |xs| then None
    else if p(xs[i]) then Some(i)
    else FindFrom(xs, p, i + 1)
  }

  /** `xs.find(p)`: the first element that satisfies `p`, if any. */
  function Find<T>(xs: seq<T>, p: T -> bool): (r: Option<T>)
    ensures r.None? <==> forall j :: 0 <= j < |xs| ==> !p(xs[j])
    ensures r.Some? ==> r.value in xs && p(r.value)
    ensures r.Some? ==> exists i :: 0 <= i < |xs| && xs[i] == r.value && forall j :: 0 <= j < i ==> !p(xs[j])
  {
    match FindFrom(xs, p, 0)
    case Some(i) => Some(xs[i])
    case None => None
  }

  /** `xs.filter(p)`: the elements that satisfy `p`, in their order. */
  function Filter<T>(xs: seq<T>, p: T -> bool): (r: seq<T>)
    ensures |r| <= |xs|
    ensures forall j :: 0 <= j < |r| ==> p(r[j])
    ensures forall j :: 0 <= j < |r| ==> r[j] in xs
  {
    if |xs| == 0 then []
    else (if p(xs[0]) then [xs[0]] else []) + Filter(xs[1..], p)
  }

  /** Filtering distributes over concatenation. */
  lemma {:induction false} FilterAppend<T>(a: seq<T>, b: seq<T>, p: T -> bool)
    ensures Filter(a + b, p) == Filter(a, p) + Filter(b, p)
  {
    if |a| > 0 {
      assert (a + b)[1..] == a[1..] + b;
      FilterAppend(a[1..], b, p);
    } else {
      assert a + b == b;
    }
  }

  /** An element that satisfies `p` survives the filter. */
  lemma {:induction false} FilterKeeps<T>(xs: seq<T>, p: T -> bool, x: T)
    requires x in xs && p(x)
    ensures x in Filter(xs, p)
  {
    if xs[0] != x {
      FilterKeeps(xs[1..], p, x);
    }
  }

  /** Filtering with a test every element passes changes nothing. */
  lemma {:induction false} FilterAll<T>(xs: seq<T>, p: T -> bool)
    requires forall j :: 0 <= j < |xs| ==> p(xs[j])
    ensures Filter(xs, p) == xs
  {
    if |xs| > 0 {
      FilterAll(xs[1..], p);
    }
  }
}
