/** Python's argument-less `str.split()`: runs of whitespace separate words,
    and leading, trailing or repeated whitespace yields no empty words. */
module PyStr {

  /** `str.isspace()` for one character: the code points Python treats as
      whitespace (bidirectional class WS, B or S, or category Zs). */
  predicate IsSpace(c: char) {
    var n := c as int;
    || 0x09 <= n <= 0x0D
    || 0x1C <= n <= 0x20
    || n == 0x85 || n == 0xA0 || n == 0x1680
    || 0x2000 <= n <= 0x200A
    || n == 0x2028 || n == 0x2029 || n == 0x202F || n == 0x205F || n == 0x3000
  }

  /** A non-empty string with no whitespace: what `split()` keeps intact. */
  predicate IsWord(w: string) {
    |w| > 0 && forall i :: 0 <= i < |w| ==> !IsSpace(w[i])
  }

  /** The words still to be emitted from `s`, given the partial word `cur`
      read so far. */
  function Words(s: string, cur: string): (r: seq<string>)
    requires cur == [] || IsWord(cur)
    ensures forall k :: 0 <= k < |r| ==> IsWord(r[k])
    decreases |s|
  {
    if s == [] then
      (if cur == [] then [] else [cur])
    else if IsSpace(s[0]) then
      (if cur == [] then [] else [cur]) + Words(s[1..], [])
    else
      Words(s[1..], cur + [s[0]])
  }

  /** `s.split()`. */
  function Split(s: string): (r: seq<string>)
    ensures forall k :: 0 <= k < |r| ==> IsWord(r[k])
  {
    Words(s, [])
  }

  /** A whitespace character cuts the input in two: the words of the whole
      are the words of the left part followed by those of the right. */
  lemma {:induction false} WordsAtSpace(a: string, c: char, b: string, cur: string)
    requires cur == [] || IsWord(cur)
    requires IsSpace(c)
    ensures Words(a + [c] + b, cur) == Words(a, cur) + Words(b, [])
    decreases |a|
  {
    var s := a + [c] + b;
    if a == [] {
      assert s == [c] + b;
      assert s[1..] == b;
    } else {
      assert s[0] == a[0];
      assert s[1..] == a[1..] + [c] + b;
      if IsSpace(a[0]) {
        WordsAtSpace(a[1..], c, b, []);
      } else {
        WordsAtSpace(a[1..], c, b, cur + [a[0]]);
      }
    }
  }

  lemma SplitAtSpace(a: string, c: char, b: string)
    requires IsSpace(c)
    ensures Split(a + [c] + b) == Split(a) + Split(b)
  {
    WordsAtSpace(a, c, b, []);
  }

  /** Reading a run with no whitespace just extends the current word. */
  lemma {:induction false} WordsOfWord(w: string, cur: string)
    requires cur == [] || IsWord(cur)
    requires forall i :: 0 <= i < |w| ==> !IsSpace(w[i])
    requires cur + w != []
    ensures Words(w, cur) == [cur + w]
    decreases |w|
  {
    if w == [] {
      assert cur + w == cur;
    } else {
      var next := cur + [w[0]];
      assert IsWord(next) by {
        assert forall i :: 0 <= i < |cur| ==> next[i] == cur[i];
      }
      assert cur + w == next + w[1..];
      WordsOfWord(w[1..], next);
    }
  }

  /** `split()` leaves a string alone exactly when it is a single word. */
  lemma SplitWord(w: string)
    ensures Split(w) == [w] <==> IsWord(w)
  {
    var r := Split(w);
    assert |r| > 0 ==> IsWord(r[0]);
    if IsWord(w) {
      WordsOfWord(w, []);
      assert [] + w == w;
    }
  }

  /** A string of whitespace only (including the empty string) splits into
      nothing at all. */
  lemma {:induction false} SplitBlank(s: string)
    requires forall i :: 0 <= i < |s| ==> IsSpace(s[i])
    ensures Split(s) == []
    decreases |s|
  {
    if s != [] {
      assert forall i :: 0 <= i < |s[1..]| ==> IsSpace(s[1..][i]);
      SplitBlank(s[1..]);
    }
  }
}
