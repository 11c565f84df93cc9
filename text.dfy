/** Character classes and the few Python string operations the parser relies on:
    slicing, `" ".join`, and `str.split()` with no argument. */
module Text {

  /** The ASCII decimal digits, the class `[0-9]` of both patterns. */
  predicate IsDigit(c: char) { '0' <= c <= '9' }

  /** The characters of a coordinate or radius token: a digit or the decimal point. */
  predicate IsNumeralChar(c: char) { IsDigit(c) || c == '.' }

  predicate AllDigits(s: string) {
    forall i :: 0 <= i < |s| ==> IsDigit(s[i])
  }

  predicate AllNumeralChars(s: string) {
    forall i :: 0 <= i < |s| ==> IsNumeralChar(s[i])
  }

  predicate AtMostOneDot(s: string) {
    forall i, j :: 0 <= i < j < |s| && s[i] == '.' ==> s[j] != '.'
  }

  predicate HasDigit(s: string) {
    exists i :: 0 <= i < |s| && IsDigit(s[i])
  }

  /** The numeral of a coordinate, `[0-9]*[\.][0-9]+|[0-9]*` in both patterns: digits with at
      most one '.', and a '.' is never the last character. */
  predicate IsCoordinateNumeral(s: string) {
    AllNumeralChars(s) && AtMostOneDot(s) && (s != [] ==> s[|s| - 1] != '.')
  }

  /** The numeral of a radius, `[\d]*[\.][\d]*|[\d]*`: digits with at most one '.' anywhere. */
  predicate IsRadiusNumeral(s: string) {
    AllNumeralChars(s) && AtMostOneDot(s)
  }

  /** The characters Python's `str.isspace` accepts, which `str.split()` splits on. */
  predicate IsSpace(c: char) {
    c == ' ' || '\t' <= c <= '\r' || '\U{1C}' <= c <= '\U{1F}' || c == '\U{85}' || c == '\U{A0}'
    || c == '\U{1680}' || '\U{2000}' <= c <= '\U{200A}' || c == '\U{2028}' || c == '\U{2029}'
    || c == '\U{202F}' || c == '\U{205F}' || c == '\U{3000}'
  }

  predicate NoSpace(s: string) {
    forall i :: 0 <= i < |s| ==> !IsSpace(s[i])
  }

  /** Python's normalisation of a slice bound: a negative bound counts from the end, then the
      bound is clamped to [0, n]. */
  function SliceBound(i: int, n: nat): (b: nat)
    ensures b <= n
    ensures 0 <= i <= n ==> b == i
    ensures i > n ==> b == n
    ensures -(n as int) <= i < 0 ==> b == n + i
    ensures i < -(n as int) ==> b == 0
  {
    if i < 0 then (if i + n < 0 then 0 else i + n) else if i > n then n else i
  }

  /** `s[lo:hi]` with Python's semantics: out-of-range bounds are clamped, never an error. */
  function PySlice<T>(s: seq<T>, lo: int, hi: int): (r: seq<T>)
    ensures |r| <= |s|
    ensures 0 <= lo <= hi <= |s| ==> r == s[lo..hi]
    ensures 0 <= lo && |s| <= lo ==> r == []
  {
    var a, b := SliceBound(lo, |s|), SliceBound(hi, |s|);
    if a <= b then s[a..b] else []
  }

  /** `s[lo:-1]`: everything from `lo` up to, but not including, the last element. */
  lemma {:induction false} SliceToLast<T>(s: seq<T>, lo: nat)
    ensures lo < |s| ==> PySlice(s, lo, -1) == s[lo..|s| - 1]
    ensures |s| <= lo + 1 ==> PySlice(s, lo, -1) == []
  {
    if |s| == 0 {
      assert SliceBound(-1, 0) == 0;
    }
  }

  /** `sep.join(parts)`. */
  function Join(sep: string, parts: seq<string>): (r: string)
    ensures |parts| == 1 ==> r == parts[0]
  {
    if |parts| == 0 then "" else if |parts| == 1 then parts[0] else parts[0] + sep + Join(sep, parts[1..])
  }

  /** Joining one more part appends the separator and the part. */
  lemma {:induction false} JoinSnoc(sep: string, parts: seq<string>, p: string)
    requires parts != []
    ensures Join(sep, parts + [p]) == Join(sep, parts) + sep + p
    decreases |parts|
  {
    if |parts| > 1 {
      JoinSnoc(sep, parts[1..], p);
      assert (parts + [p])[1..] == parts[1..] + [p];
    } else {
      assert (parts + [p])[1..] == [p];
    }
  }

  /** Length of the leading run of non-space characters of `s`. */
  function WordLength(s: string): (n: nat)
    ensures n <= |s|
    ensures NoSpace(s[..n])
    ensures n < |s| ==> IsSpace(s[n])
  {
    if s == [] || IsSpace(s[0]) then 0
    else
      var n := 1 + WordLength(s[1..]);
      assert s[..n] == [s[0]] + s[1..][..n - 1];
      n
  }

  /** `s.split()`: the maximal runs of non-space characters, in order. */
  function Words(s: string): (r: seq<string>)
    ensures forall i :: 0 <= i < |r| ==> r[i] != [] && NoSpace(r[i])
    decreases |s|
  {
    if s == [] then []
    else if IsSpace(s[0]) then Words(s[1..])
    else var n := WordLength(s); [s[..n]] + Words(s[n..])
  }

  lemma {:induction false} WordLengthOfWord(w: string, rest: string)
    requires NoSpace(w)
    requires rest == [] || IsSpace(rest[0])
    ensures WordLength(w + rest) == |w|
    decreases |w|
  {
    if w == [] {
      assert w + rest == rest;
    } else {
      assert (w + rest)[1..] == w[1..] + rest;
      WordLengthOfWord(w[1..], rest);
    }
  }

  /** A space followed by a word and then (nothing or) a space-led remainder splits into that
      word followed by the words of the remainder. */
  lemma {:induction false} WordsCons(w: string, rest: string)
    requires w != [] && NoSpace(w)
    requires rest == [] || IsSpace(rest[0])
    ensures Words(" " + w + rest) == [w] + Words(rest)
  {
    var s := " " + w + rest;
    assert s[1..] == w + rest;
    WordLengthOfWord(w, rest);
    assert (w + rest)[..|w|] == w;
    assert (w + rest)[|w|..] == rest;
  }

  /** `" ".join` and `split()` are inverse on words that are non-empty and space-free. */
  lemma {:induction false} WordsOfJoin(ws: seq<string>)
    requires forall i :: 0 <= i < |ws| ==> ws[i] != [] && NoSpace(ws[i])
    ensures Words(Join(" ", ws)) == ws
  {
    if |ws| == 0 {
    } else if |ws| == 1 {
      WordLengthOfWord(ws[0], []);
      assert ws[0] + [] == ws[0];
      assert ws[0][..|ws[0]|] == ws[0];
      assert ws[0][|ws[0]|..] == [];
    } else {
      var tail := Join(" ", ws[1..]);
      WordsOfJoin(ws[1..]);
      var s := ws[0] + " " + tail;
      assert s == ws[0] + (" " + tail);
      WordLengthOfWord(ws[0], " " + tail);
      assert s[..|ws[0]|] == ws[0];
      assert s[|ws[0]|..] == " " + tail;
      assert (" " + tail)[1..] == tail;
      assert ws == [ws[0]] + ws[1..];
    }
  }

  /** The three parts of a concatenation. */
  lemma ThreeParts<T>(a: seq<T>, b: seq<T>, c: seq<T>)
    ensures var s := a + b + c;
      s[..|a|] == a && s[|a|..|a| + |b|] == b && s[|a| + |b|..] == c
  {
  }

  /** Every suffix of a concatenation that starts inside its middle part. */
  lemma MiddleSuffixes<T>(a: seq<T>, b: seq<T>, c: seq<T>)
    ensures forall k :: |a| <= k < |a| + |b| ==> (a + b + c)[k..] == b[k - |a|..] + c
  {
    var s := a + b + c;
    forall k | |a| <= k < |a| + |b| ensures s[k..] == b[k - |a|..] + c {
      assert |s[k..]| == |b[k - |a|..] + c|;
      forall i | 0 <= i < |s[k..]| ensures s[k..][i] == (b[k - |a|..] + c)[i] {
        if k + i < |a| + |b| {
          assert s[k + i] == b[k - |a| + i];
        } else {
          assert s[k + i] == c[k + i - |a| - |b|];
        }
      }
    }
  }

  /** A non-empty sequence is its head followed by its tail. */
  lemma HeadTail<T>(s: seq<T>)
    requires s != []
    ensures s == [s[0]] + s[1..]
  {
  }
}
