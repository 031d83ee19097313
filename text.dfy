/** ASCII text helpers standing in for the Python string operations the
    processing code uses: `str.lower`, `str.upper`, the `in` substring test
    and the argument-less `str.split`. */
module Text {

  /** Python's `str.isspace` restricted to ASCII: tab, line feed, vertical
      tab, form feed, carriage return, the four separators 0x1C-0x1F and space. */
  predicate IsSpace(c: char) {
    var k := c as int;
    k == 32 || 9 <= k <= 13 || 28 <= k <= 31
  }

  predicate NoSpace(s: string) {
    forall i :: 0 <= i < |s| ==> !IsSpace(s[i])
  }

  predicate AllSpace(s: string) {
    forall i :: 0 <= i < |s| ==> IsSpace(s[i])
  }

  function LowerChar(c: char): (r: char)
    ensures IsSpace(r) <==> IsSpace(c)
    ensures !('A' <= r <= 'Z')
  {
    if 'A' <= c <= 'Z' then (c as int + 32) as char else c
  }

  function UpperChar(c: char): (r: char)
    ensures !('a' <= r <= 'z')
    ensures !('a' <= c <= 'z') ==> r == c
  {
    if 'a' <= c <= 'z' then (c as int - 32) as char else c
  }

  /** `s.lower()` for ASCII letters. */
  function Lower(s: string): (r: string)
    ensures |r| == |s|
    ensures forall i :: 0 <= i < |s| ==> r[i] == LowerChar(s[i])
  {
    seq(|s|, i requires 0 <= i < |s| => LowerChar(s[i]))
  }

  /** `s.upper()` for ASCII letters. */
  function Upper(s: string): (r: string)
    ensures |r| == |s|
    ensures forall i :: 0 <= i < |s| ==> r[i] == UpperChar(s[i])
  {
    seq(|s|, i requires 0 <= i < |s| => UpperChar(s[i]))
  }

  /** No ASCII lower-case letter occurs in `s`. */
  predicate IsUpperCase(s: string) {
    forall i :: 0 <= i < |s| ==> !('a' <= s[i] <= 'z')
  }

  lemma UpperIsUpperCase(s: string)
    ensures IsUpperCase(Upper(s))
  {
  }

  /** Upper-casing an upper-case string changes nothing; in particular
      `Upper` is idempotent. */
  lemma UpperOfUpperCase(s: string)
    requires IsUpperCase(s)
    ensures Upper(s) == s
  {
    assert forall i :: 0 <= i < |s| ==> Upper(s)[i] == s[i];
  }

  lemma UpperIdempotent(s: string)
    ensures Upper(Upper(s)) == Upper(s)
  {
    UpperIsUpperCase(s);
    UpperOfUpperCase(Upper(s));
  }

  lemma LowerConcat(a: string, b: string)
    ensures Lower(a + b) == Lower(a) + Lower(b)
  {
    assert forall i :: 0 <= i < |a + b| ==> Lower(a + b)[i] == (Lower(a) + Lower(b))[i];
  }

  lemma LowerKeepsSpaces(s: string)
    ensures AllSpace(s) ==> AllSpace(Lower(s))
    ensures NoSpace(s) ==> NoSpace(Lower(s))
  {
  }

  /** `p` is a prefix of `s`. */
  predicate StartsWith(s: string, p: string) {
    |p| <= |s| && s[..|p|] == p
  }

  /** Python's `p in s`: `p` occurs in `s` at some position (the empty
      string occurs in every string). */
  predicate Contains(s: string, p: string)
    decreases |s|
  {
    StartsWith(s, p) || (|s| > 0 && Contains(s[1..], p))
  }

  /** `p` occurs in `s` starting at position `i`. */
  predicate OccursAt(s: string, p: string, i: int) {
    0 <= i && i + |p| <= |s| && s[i..i + |p|] == p
  }

  /** An occurrence at a position makes `Contains` true. */
  lemma {:induction false} ContainsAt(s: string, p: string, i: nat)
    requires OccursAt(s, p, i)
    ensures Contains(s, p)
    decreases i
  {
    if i > 0 {
      assert s[1..][i - 1..i - 1 + |p|] == s[i..i + |p|];
      ContainsAt(s[1..], p, i - 1);
    }
  }

  /** `Contains` is true only where there is an occurrence. */
  lemma {:induction false} ContainsWitness(s: string, p: string) returns (i: nat)
    requires Contains(s, p)
    ensures OccursAt(s, p, i)
    decreases |s|
  {
    if StartsWith(s, p) {
      i := 0;
    } else {
      var j := ContainsWitness(s[1..], p);
      assert s[1..][j..j + |p|] == s[j + 1..j + 1 + |p|];
      i := j + 1;
    }
  }

  lemma SliceOfSlice(s: string, lo: nat, hi: nat, lo2: nat, hi2: nat)
    requires lo <= hi <= |s| && lo2 <= hi2 <= hi - lo
    ensures s[lo..hi][lo2..hi2] == s[lo + lo2..lo + hi2]
  {
    assert forall k :: 0 <= k < hi2 - lo2 ==> s[lo..hi][lo2..hi2][k] == s[lo + lo2 + k];
  }

  lemma ContainsTrans(a: string, b: string, c: string)
    requires Contains(a, b) && Contains(b, c)
    ensures Contains(a, c)
  {
    var i := ContainsWitness(a, b);
    var j := ContainsWitness(b, c);
    SliceOfSlice(a, i, i + |b|, j, j + |c|);
    ContainsAt(a, c, i + j);
  }

  // ---------------------------------------------------------------------
  // Whitespace split

  /** The first position at or after `i` that holds no whitespace, or `|s|`. */
  function SkipSpace(s: string, i: nat): (j: nat)
    requires i <= |s|
    ensures i <= j <= |s|
    ensures forall k :: i <= k < j ==> IsSpace(s[k])
    ensures j < |s| ==> !IsSpace(s[j])
    decreases |s| - i
  {
    if i < |s| && IsSpace(s[i]) then SkipSpace(s, i + 1) else i
  }

  /** The first whitespace position at or after `i`, or `|s|`. */
  function SkipWord(s: string, i: nat): (j: nat)
    requires i <= |s|
    ensures i <= j <= |s|
    ensures forall k :: i <= k < j ==> !IsSpace(s[k])
    ensures j < |s| ==> IsSpace(s[j])
    ensures i < |s| && !IsSpace(s[i]) ==> i < j
    decreases |s| - i
  {
    if i < |s| && !IsSpace(s[i]) then SkipWord(s, i + 1) else i
  }

  /** The words of `s` from position `i` on: the maximal runs of
      non-whitespace characters, in order. */
  function WordsFrom(s: string, i: nat): (ws: seq<string>)
    requires i <= |s|
    decreases |s| - i
  {
    var j := SkipSpace(s, i);
    if j == |s| then []
    else
      var k := SkipWord(s, j);
      [s[j..k]] + WordsFrom(s, k)
  }

  /** Python's `s.split()`: leading, trailing and repeated whitespace yields
      no empty word. */
  function Words(s: string): (ws: seq<string>) {
    WordsFrom(s, 0)
  }

  /** Every word found from position `i` on is non-empty and holds no
      whitespace. */
  lemma {:induction false} WordsFromAreWords(s: string, i: nat)
    requires i <= |s|
    ensures forall k :: 0 <= k < |WordsFrom(s, i)| ==> WordsFrom(s, i)[k] != [] && NoSpace(WordsFrom(s, i)[k])
    decreases |s| - i
  {
    var j := SkipSpace(s, i);
    if j < |s| {
      var k := SkipWord(s, j);
      WordsFromAreWords(s, k);
    }
  }

  /** The words of `s` are non-empty and hold no whitespace. */
  lemma WordsAreWords(s: string)
    ensures forall k :: 0 <= k < |Words(s)| ==> Words(s)[k] != [] && NoSpace(Words(s)[k])
  {
    WordsFromAreWords(s, 0);
  }

  /** A blank string has no words. */
  lemma WordsOfBlank(s: string)
    requires AllSpace(s)
    ensures Words(s) == []
  {
    var j := SkipSpace(s, 0);
    assert j == |s|;
  }

  /** A single word splits into itself. */
  lemma WordsOfWord(w: string)
    requires w != [] && NoSpace(w)
    ensures Words(w) == [w]
  {
    assert SkipSpace(w, 0) == 0;
    var k := SkipWord(w, 0);
    assert k == |w|;
    assert w[0..|w|] == w;
    assert WordsFrom(w, |w|) == [];
  }

  /** Every word found from position `i` on occurs in `s`. */
  lemma {:induction false} WordOccursFrom(s: string, i: nat, x: string)
    requires i <= |s| && x in WordsFrom(s, i)
    ensures Contains(s, x)
    decreases |s| - i
  {
    var j := SkipSpace(s, i);
    var k := SkipWord(s, j);
    if x == s[j..k] {
      assert OccursAt(s, x, j);
      ContainsAt(s, x, j);
    } else {
      assert x in WordsFrom(s, k);
      WordOccursFrom(s, k, x);
    }
  }

  /** Every word of `s` occurs in `s`. */
  lemma WordOccurs(s: string, x: string)
    requires x in Words(s)
    ensures Contains(s, x)
  {
    WordOccursFrom(s, 0, x);
  }

  /** A whitespace character at `i` may be skipped first. */
  lemma WordsFromSpace(s: string, i: nat)
    requires i < |s| && IsSpace(s[i])
    ensures WordsFrom(s, i) == WordsFrom(s, i + 1)
  {
    assert SkipSpace(s, i) == SkipSpace(s, i + 1);
  }

  /** `s1` from position `i1` on and `s2` from position `i2` on are the same
      text. */
  predicate SameFrom(s1: string, i1: nat, s2: string, i2: nat) {
    && i1 <= |s1| && i2 <= |s2| && |s1| - i1 == |s2| - i2
    && forall n :: i1 <= n < |s1| ==> s1[n] == s2[n - i1 + i2]
  }

  lemma {:induction false} SkipSpaceSame(s1: string, i1: nat, s2: string, i2: nat)
    requires SameFrom(s1, i1, s2, i2)
    ensures SkipSpace(s1, i1) - i1 == SkipSpace(s2, i2) - i2
    decreases |s1| - i1
  {
    if i1 < |s1| {
      assert s1[i1] == s2[i2];
      if IsSpace(s1[i1]) {
        SkipSpaceSame(s1, i1 + 1, s2, i2 + 1);
      }
    }
  }

  lemma {:induction false} SkipWordSame(s1: string, i1: nat, s2: string, i2: nat)
    requires SameFrom(s1, i1, s2, i2)
    ensures SkipWord(s1, i1) - i1 == SkipWord(s2, i2) - i2
    decreases |s1| - i1
  {
    if i1 < |s1| {
      assert s1[i1] == s2[i2];
      if !IsSpace(s1[i1]) {
        SkipWordSame(s1, i1 + 1, s2, i2 + 1);
      }
    }
  }

  lemma SameFromLater(s1: string, i1: nat, s2: string, i2: nat, d: nat)
    requires SameFrom(s1, i1, s2, i2) && i1 + d <= |s1|
    ensures SameFrom(s1, i1 + d, s2, i2 + d)
  {
  }

  lemma SameSlice(s1: string, i1: nat, s2: string, i2: nat, a: nat, b: nat)
    requires SameFrom(s1, i1, s2, i2) && i1 <= a <= b <= |s1|
    ensures s1[a..b] == s2[a - i1 + i2..b - i1 + i2]
  {
    assert forall n :: 0 <= n < b - a ==> s1[a..b][n] == s1[a + n];
  }

  /** The same text splits into the same words, wherever it sits. */
  lemma {:induction false} WordsFromSame(s1: string, i1: nat, s2: string, i2: nat)
    requires SameFrom(s1, i1, s2, i2)
    ensures WordsFrom(s1, i1) == WordsFrom(s2, i2)
    decreases |s1| - i1
  {
    SkipSpaceSame(s1, i1, s2, i2);
    var j1, j2 := SkipSpace(s1, i1), SkipSpace(s2, i2);
    if j1 < |s1| {
      SameFromLater(s1, i1, s2, i2, j1 - i1);
      SkipWordSame(s1, j1, s2, j2);
      var a, b := WordsFromUnfold(s1, i1);
      var c, d := WordsFromUnfold(s2, i2);
      SameSlice(s1, i1, s2, i2, a, b);
      SameFromLater(s1, i1, s2, i2, b - i1);
      WordsFromSame(s1, b, s2, d);
      ConsEq(s1[a..b], s2[c..d], WordsFrom(s1, b), WordsFrom(s2, d));
    }
  }

  lemma WordsFromUnfold(s: string, i: nat) returns (j: nat, k: nat)
    requires i <= |s| && SkipSpace(s, i) < |s|
    ensures j == SkipSpace(s, i) && j <= k == SkipWord(s, j) <= |s|
    ensures WordsFrom(s, i) == [s[j..k]] + WordsFrom(s, k)
  {
    j := SkipSpace(s, i);
    k := SkipWord(s, j);
  }

  lemma ConsEq<T>(x: T, y: T, a: seq<T>, b: seq<T>)
    requires x == y && a == b
    ensures [x] + a == [y] + b
  {
  }

  /** Appending text that starts with whitespace does not move a word
      boundary inside `p`. */
  lemma {:induction false} SkipWordPrefix(p: string, q: string, j: nat)
    requires j <= |p| && (q == [] || IsSpace(q[0]))
    ensures SkipWord(p + q, j) == SkipWord(p, j)
    decreases |p| - j
  {
    if j < |p| {
      assert (p + q)[j] == p[j];
      if !IsSpace(p[j]) {
        SkipWordPrefix(p, q, j + 1);
      }
    } else if q != [] {
      assert (p + q)[j] == q[0];
    }
  }

  lemma {:induction false} SkipSpacePrefix(p: string, q: string, i: nat)
    requires i <= |p|
    ensures SkipSpace(p, i) < |p| ==> SkipSpace(p + q, i) == SkipSpace(p, i)
    ensures SkipSpace(p, i) == |p| ==> SkipSpace(p + q, i) == SkipSpace(p + q, |p|)
    decreases |p| - i
  {
    if i < |p| {
      assert (p + q)[i] == p[i];
      if IsSpace(p[i]) {
        SkipSpacePrefix(p, q, i + 1);
      }
    }
  }

  /** Splitting `p + q`, where `q` starts with whitespace, gives the words of
      `p` and then the words after it. */
  lemma {:induction false} WordsFromPrefix(p: string, q: string, i: nat)
    requires i <= |p| && (q == [] || IsSpace(q[0]))
    ensures WordsFrom(p + q, i) == WordsFrom(p, i) + WordsFrom(p + q, |p|)
    decreases |p| - i
  {
    SkipSpacePrefix(p, q, i);
    var j := SkipSpace(p, i);
    if j < |p| {
      SkipWordPrefix(p, q, j);
      var k := SkipWord(p, j);
      assert (p + q)[j..k] == p[j..k];
      WordsFromPrefix(p, q, k);
      Assoc([p[j..k]], WordsFrom(p, k), WordsFrom(p + q, |p|));
    } else {
      assert SkipSpace(p + q, i) == SkipSpace(p + q, |p|);
    }
  }

  lemma Assoc<T>(a: seq<T>, b: seq<T>, c: seq<T>)
    ensures a + b + c == a + (b + c)
  {
  }

  /** Whitespace separates words: splitting `s + " " + t` gives the words of
      `s` followed by the words of `t`. */
  lemma WordsConcat(s: string, t: string)
    ensures Words(s + " " + t) == Words(s) + Words(t)
  {
    var u := s + " " + t;
    Assoc(s, " ", t);
    WordsFromPrefix(s, " " + t, 0);
    assert u[|s|] == ' ';
    WordsFromSpace(u, |s|);
    assert SameFrom(u, |s| + 1, t, 0);
    WordsFromSame(u, |s| + 1, t, 0);
  }

  lemma LowerJoin(s: string, w: string)
    ensures Lower(s + " " + w) == Lower(s) + " " + Lower(w)
  {
    LowerConcat(s + " ", w);
    LowerConcat(s, " ");
  }

  /** Appending a single word to a keyword appends its lower-case form to
      the keyword's lower-case words. */
  lemma WordsAppendWord(s: string, w: string)
    requires w != [] && NoSpace(w)
    ensures Words(Lower(s + " " + w)) == Words(Lower(s)) + [Lower(w)]
  {
    LowerJoin(s, w);
    LowerKeepsSpaces(w);
    WordsConcat(Lower(s), Lower(w));
    WordsOfWord(Lower(w));
  }
}
