/**
 * The string operations of Python's `str` that both scripts rely on:
 * `line.split()` (split on runs of whitespace), `url.split('/')[-1]`
 * (the last path segment) and `marker in url` (substring test).
 */
module Text {

  /** Python's `str.isspace()` for one character (Unicode White_Space as Python defines it). */
  predicate IsSpace(c: char) {
    var n := c as int;
    (0x09 <= n <= 0x0D) || (0x1C <= n <= 0x20) || n == 0x85 || n == 0xA0 || n == 0x1680 ||
    (0x2000 <= n <= 0x200A) || n == 0x2028 || n == 0x2029 || n == 0x202F || n == 0x205F || n == 0x3000
  }

  predicate SpaceFree(w: string) {
    forall i :: 0 <= i < |w| ==> !IsSpace(w[i])
  }

  /** The length of the run of non-whitespace characters that starts `s`. */
  function TokenLength(s: string): (n: nat)
    ensures n <= |s|
    ensures forall i :: 0 <= i < n ==> !IsSpace(s[i])
    ensures n < |s| ==> IsSpace(s[n])
  {
    if s == [] || IsSpace(s[0]) then 0 else 1 + TokenLength(s[1..])
  }

  /**
   * `s.split()` with no separator: the maximal runs of non-whitespace
   * characters, in order; leading, trailing and repeated whitespace gives
   * no empty tokens.
   */
  function Split(s: string): (words: seq<string>)
    ensures forall k :: 0 <= k < |words| ==> words[k] != [] && SpaceFree(words[k])
    decreases |s|
  {
    if s == [] then []
    else if IsSpace(s[0]) then Split(s[1..])
    else
      var n := TokenLength(s);
      [s[..n]] + Split(s[n..])
  }

  /** The words separated by single spaces: the text `Split` takes apart. */
  function JoinSpaced(words: seq<string>): string {
    if words == [] then []
    else if |words| == 1 then words[0]
    else words[0] + " " + JoinSpaced(words[1..])
  }

  /** A space-free word followed by whitespace or the end is one whole token. */
  lemma {:induction false} TokenLengthOfWord(w: string, rest: string)
    requires SpaceFree(w) && (rest == [] || IsSpace(rest[0]))
    ensures TokenLength(w + rest) == |w|
    decreases |w|
  {
    if w == [] {
      assert w + rest == rest;
    } else {
      assert (w + rest)[0] == w[0] && (w + rest)[1..] == w[1..] + rest;
      assert SpaceFree(w[1..]) by {
        forall i | 0 <= i < |w| - 1 ensures !IsSpace(w[1..][i]) {
          assert w[1..][i] == w[i + 1];
        }
      }
      TokenLengthOfWord(w[1..], rest);
    }
  }

  /** A leading word followed by whitespace or the end is split off whole. */
  lemma SplitAfterWord(w: string, rest: string)
    requires w != [] && SpaceFree(w) && (rest == [] || IsSpace(rest[0]))
    ensures Split(w + rest) == [w] + Split(rest)
  {
    var s := w + rest;
    TokenLengthOfWord(w, rest);
    assert s[0] == w[0];
    assert s[..|w|] == w && s[|w|..] == rest;
  }

  /** A single non-empty word without whitespace is one token. */
  lemma SplitWord(w: string)
    requires w != [] && SpaceFree(w)
    ensures Split(w) == [w]
  {
    SplitAfterWord(w, []);
    assert w + [] == w;
  }

  /** A token that ends inside `x` ends at the same place whatever follows `x`. */
  lemma TokenLengthPrefix(x: string, y: string)
    requires TokenLength(x) < |x|
    ensures TokenLength(x + y) == TokenLength(x)
  {
    var n, k := TokenLength(x), TokenLength(x + y);
    assert (x + y)[n] == x[n];
    if k < n {
      assert (x + y)[k] == x[k];
    }
  }

  /** Leading whitespace is dropped. */
  lemma SplitLeadingSpace(x: string)
    requires x != [] && IsSpace(x[0])
    ensures Split(x) == Split(x[1..])
  {
  }

  /** A leading token is split off up to the first whitespace. */
  lemma SplitLeadingToken(x: string)
    requires x != [] && !IsSpace(x[0])
    ensures Split(x) == [x[..TokenLength(x)]] + Split(x[TokenLength(x)..])
  {
  }

  /**
   * Any one whitespace character separates: the tokens of `a + [c] + b` are
   * those of `a` followed by those of `b`, so runs of whitespace act as one
   * separator and leading or trailing whitespace gives no empty token.
   * With SplitWord and `Split([]) == []` this law determines `Split`.
   */
  lemma {:induction false} SplitAtSpace(a: string, c: char, b: string)
    requires IsSpace(c)
    ensures Split(a + [c] + b) == Split(a) + Split(b)
    decreases |a|
  {
    var cb := [c] + b;
    var s := a + cb;
    assert a + [c] + b == s;
    assert cb[0] == c && cb[1..] == b;
    SplitLeadingSpace(cb);
    if a == [] {
      assert s == cb;
    } else if IsSpace(a[0]) {
      assert s[0] == a[0] && s[1..] == a[1..] + [c] + b;
      SplitLeadingSpace(s);
      SplitLeadingSpace(a);
      SplitAtSpace(a[1..], c, b);
    } else {
      var m := TokenLength(a);
      SplitLeadingToken(a);
      if m < |a| {
        assert s[0] == a[0];
        TokenLengthPrefix(a, cb);
        SplitLeadingToken(s);
        assert s[..m] == a[..m] && s[m..] == a[m..] + [c] + b;
        SplitAtSpace(a[m..], c, b);
      } else {
        assert SpaceFree(a);
        SplitAfterWord(a, cb);
        SplitWord(a);
      }
    }
  }

  /** Splitting undoes joining, for words that are non-empty and contain no whitespace. */
  lemma {:induction false} SplitJoinSpaced(words: seq<string>)
    requires forall k :: 0 <= k < |words| ==> words[k] != [] && SpaceFree(words[k])
    ensures Split(JoinSpaced(words)) == words
    decreases |words|
  {
    if words != [] {
      var w := words[0];
      if |words| == 1 {
        SplitAfterWord(w, []);
        assert w + [] == w;
        assert words == [w];
      } else {
        var tail := JoinSpaced(words[1..]);
        var rest := " " + tail;
        assert JoinSpaced(words) == w + rest;
        SplitAfterWord(w, rest);
        assert rest[1..] == tail;
        assert Split(rest) == Split(tail);
        SplitJoinSpaced(words[1..]);
        assert words == [w] + words[1..];
      }
    }
  }

  /** Where the last '/'-separated segment of `s` starts: just after the last '/', or 0. */
  function SegmentStart(s: string): (k: nat)
    ensures k <= |s|
    ensures forall i :: k <= i < |s| ==> s[i] != '/'
    ensures k > 0 ==> s[k - 1] == '/'
  {
    if s == [] || s[|s| - 1] == '/' then |s| else SegmentStart(s[..|s| - 1])
  }

  /**
   * `s.split('/')[-1]`: the longest suffix of `s` without a '/', which is
   * all of `s` when it has no '/' at all.
   */
  function LastSegment(s: string): string {
    s[SegmentStart(s)..]
  }

  /** The last segment of `dir/name` is `name` whenever `name` has no '/'. */
  lemma LastSegmentAfterSlash(dir: string, name: string)
    requires '/' !in name
    ensures LastSegment(dir + "/" + name) == name
  {
    var s := dir + "/" + name;
    var k := SegmentStart(s);
    assert s[|dir|] == '/';
    assert forall i :: |dir| < i < |s| ==> s[i] == name[i - |dir| - 1];
    assert k == |dir| + 1;
    assert s[k..] == name;
  }

  /** `pat` occurs in `text` starting at index `i`. */
  predicate OccursAt(text: string, pat: string, i: int) {
    0 <= i <= |text| - |pat| && text[i..i + |pat|] == pat
  }

  /** Python's `pat in text`: `pat` occurs somewhere in `text`. */
  function Contains(text: string, pat: string): (found: bool)
    ensures found <==> exists i :: OccursAt(text, pat, i)
  {
    if pat <= text then
      assert OccursAt(text, pat, 0);
      true
    else if text == [] then false
    else
      var r := Contains(text[1..], pat);
      assert r ==> exists i :: OccursAt(text, pat, i) by {
        if r {
          var j :| OccursAt(text[1..], pat, j);
          assert text[1..][j..j + |pat|] == text[j + 1..j + 1 + |pat|];
          assert OccursAt(text, pat, j + 1);
        }
      }
      assert (exists i :: OccursAt(text, pat, i)) ==> r by {
        if exists i :: OccursAt(text, pat, i) {
          var i :| OccursAt(text, pat, i);
          if i != 0 {
            assert text[1..][i - 1..i - 1 + |pat|] == text[i..i + |pat|];
            assert OccursAt(text[1..], pat, i - 1);
          }
        }
      }
      r
  }
}
