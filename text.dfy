/**
 * The few pieces of Python's string library the monitor searcher relies on:
 * `str.strip()`, `sep.join(xs)`, `file.readlines()` on a text file, and the
 * substring test `w in t`; and `Split`, the inverse that reads a join back.
 * Strings are `seq<char>`.
 */
module Text {

  /** `c.isspace()` in Python: the characters `str.strip()` removes. */
  predicate IsSpace(c: char) {
    || c == ' '
    || ('\t' <= c <= '\r')                 // \t \n \v \f \r
    || ('\U{1c}' <= c <= '\U{1f}')         // file, group, record and unit separators
    || c == '\U{85}' || c == '\U{a0}' || c == '\U{1680}'
    || ('\U{2000}' <= c <= '\U{200a}')
    || c == '\U{2028}' || c == '\U{2029}' || c == '\U{202f}' || c == '\U{205f}' || c == '\U{3000}'
  }

  predicate AllSpace(s: string) {
    forall k :: 0 <= k < |s| ==> IsSpace(s[k])
  }

  /** Neither end of `s` is whitespace: what `str.strip()` leaves. */
  predicate IsStripped(s: string) {
    s == [] || (!IsSpace(s[0]) && !IsSpace(s[|s| - 1]))
  }

  /** The number of whitespace characters `s` starts with. */
  function LeadingSpace(s: string): (n: nat)
    ensures n <= |s|
    ensures forall k :: 0 <= k < n ==> IsSpace(s[k])
    ensures n < |s| ==> !IsSpace(s[n])
  {
    if s == [] || !IsSpace(s[0]) then 0 else 1 + LeadingSpace(s[1..])
  }

  /** The index at which the whitespace that `s` ends with begins. */
  function TrailingStart(s: string): (n: nat)
    ensures n <= |s|
    ensures forall k :: n <= k < |s| ==> IsSpace(s[k])
    ensures 0 < n ==> !IsSpace(s[n - 1])
  {
    if s == [] || !IsSpace(s[|s| - 1]) then |s| else TrailingStart(s[..|s| - 1])
  }

  /** `s.strip()`: `s` without the whitespace at either end. */
  function Strip(s: string): (r: string)
    ensures IsStripped(r)
    ensures |r| <= |s|
  {
    var i := LeadingSpace(s);
    if i == |s| then [] else s[i..TrailingStart(s)]
  }

  /**
   * `s.strip()` is the one slice of `s` that is stripped and is surrounded
   * by whitespace only.
   */
  lemma StripIsTrimmedSlice(s: string)
    ensures var r := Strip(s);
      exists i :: (0 <= i <= |s| - |r| && r == s[i..i + |r|] && AllSpace(s[..i]) && AllSpace(s[i + |r|..]))
  {
    var i := LeadingSpace(s);
    if i == |s| {
      assert s[|s|..|s|] == [] && AllSpace(s[..|s|]);
    } else {
      var j := TrailingStart(s);
      assert s[i..j] == s[i..i + |s[i..j]|];
      assert AllSpace(s[..i]) && AllSpace(s[j..]);
    }
  }

  /** Stripping changes a string exactly when one of its ends is whitespace. */
  lemma StripFixpoint(s: string)
    ensures Strip(s) == s <==> IsStripped(s)
  {
    if IsStripped(s) && s != [] {
      assert LeadingSpace(s) == 0;
      assert TrailingStart(s) == |s|;
      assert s[0..|s|] == s;
    }
  }

  /** A stripped entry followed by the newline that ends its line strips back to itself. */
  lemma StripLineBreak(e: string)
    requires IsStripped(e)
    ensures Strip(e + "\n") == e
  {
    var s := e + "\n";
    if e == [] {
      assert LeadingSpace(s) == |s|;
    } else {
      assert LeadingSpace(s) == 0;
      assert TrailingStart(s) == |e| by {
        assert TrailingStart(s) == TrailingStart(s[..|s| - 1]);
        assert s[..|s| - 1] == e;
        StripFixpoint(e);
      }
      assert s[0..|e|] == e;
    }
  }

  /** The index of the first `c` in `s`, or `|s|` when there is none. */
  function IndexOf(c: char, s: string): (k: nat)
    ensures k <= |s|
    ensures forall i :: 0 <= i < k ==> s[i] != c
    ensures k < |s| ==> s[k] == c
  {
    if s == [] || s[0] == c then 0 else 1 + IndexOf(c, s[1..])
  }

  /** The total length of a sequence of strings. */
  function TotalLength(xs: seq<string>): nat
  {
    if xs == [] then 0 else |xs[0]| + TotalLength(xs[1..])
  }

  /** `sep.join(xs)`: the pieces, with one separator between each two of them. */
  function Join(sep: string, xs: seq<string>): (r: string)
    ensures |xs| == 0 ==> r == ""
    ensures |xs| > 0 ==> |r| + |sep| == TotalLength(xs) + |xs| * |sep|
  {
    if |xs| == 0 then "" else if |xs| == 1 then xs[0] else xs[0] + sep + Join(sep, xs[1..])
  }

  /** `t.split(c)` for a one-character separator. */
  function Split(c: char, t: string): (parts: seq<string>)
    ensures |parts| > 0
    ensures forall i :: 0 <= i < |parts| ==> c !in parts[i]
    decreases |t|
  {
    var k := IndexOf(c, t);
    if k == |t| then [t] else [t[..k]] + Split(c, t[k + 1..])
  }

  /** Joining the pieces of a split gives back the original text. */
  lemma {:induction false} JoinSplit(c: char, t: string)
    ensures Join([c], Split(c, t)) == t
    decreases |t|
  {
    var k := IndexOf(c, t);
    if k < |t| {
      var x, rest := t[..k], t[k + 1..];
      assert t == x + [c] + rest;
      SplitCons(c, x, rest);
      JoinSplit(c, rest);
      var parts := Split(c, rest);
      assert ([x] + parts)[1..] == parts;
    }
  }

  /** The first `c` in `x + [c] + rest` is the one after `x`, when `x` has none. */
  lemma IndexOfAfter(c: char, x: string, rest: string)
    requires c !in x
    ensures IndexOf(c, x + [c] + rest) == |x|
  {
    var t := x + [c] + rest;
    assert t[|x|] == c;
    assert forall i :: 0 <= i < |x| ==> t[i] == x[i];
  }

  /** `split` cuts at the first separator and carries on after it. */
  lemma SplitCons(c: char, x: string, rest: string)
    requires c !in x
    ensures Split(c, x + [c] + rest) == [x] + Split(c, rest)
  {
    var t := x + [c] + rest;
    IndexOfAfter(c, x, rest);
    assert t[..|x|] == x;
    assert t[|x| + 1..] == rest;
  }

  /** Splitting a join gives back the pieces, when no piece holds the separator. */
  lemma {:induction false} SplitJoin(c: char, xs: seq<string>)
    requires |xs| > 0
    requires forall i :: 0 <= i < |xs| ==> c !in xs[i]
    ensures Split(c, Join([c], xs)) == xs
  {
    if |xs| == 1 {
      assert IndexOf(c, xs[0]) == |xs[0]|;
    } else {
      SplitCons(c, xs[0], Join([c], xs[1..]));
      SplitJoin(c, xs[1..]);
      assert xs == [xs[0]] + xs[1..];
    }
  }

  /** The concatenation of a sequence of strings. */
  function Concat(xs: seq<string>): string
  {
    if xs == [] then "" else xs[0] + Concat(xs[1..])
  }

  /**
   * One line as `readlines()` yields it: not empty, no newline before its
   * last character, and a newline at the end unless it is the file's last.
   */
  predicate IsLine(line: string, last: bool) {
    && |line| > 0
    && '\n' !in line[..|line| - 1]
    && (!last ==> line[|line| - 1] == '\n')
  }

  /** `f.readlines()` on a text file whose contents (newlines already translated) are `t`. */
  function ReadLines(t: string): (lines: seq<string>)
    ensures Concat(lines) == t
    ensures forall i :: 0 <= i < |lines| ==> IsLine(lines[i], i == |lines| - 1)
    decreases |t|
  {
    if t == [] then []
    else
      var k := IndexOf('\n', t);
      if k == |t| then
        assert t[..|t| - 1] == t[..k - 1];
        [t]
      else
        var first, rest := t[..k + 1], ReadLines(t[k + 1..]);
        assert first[..|first| - 1] == t[..k];
        assert ([first] + rest)[1..] == rest;
        assert t == first + t[k + 1..];
        [first] + rest
  }

  /** `readlines()` cuts a line at the first newline and carries on after it. */
  lemma ReadLinesCons(x: string, rest: string)
    requires '\n' !in x
    ensures ReadLines(x + "\n" + rest) == [x + "\n"] + ReadLines(rest)
  {
    var t := x + "\n" + rest;
    IndexOfAfter('\n', x, rest);
    assert t[..|x| + 1] == x + "\n";
    assert t[|x| + 1..] == rest;
  }

  /** Text without a newline is one line, or no line at all when empty. */
  lemma ReadLinesSingle(x: string)
    requires '\n' !in x
    ensures ReadLines(x) == if x == [] then [] else [x]
  {
    if x != [] {
      assert IndexOf('\n', x) == |x|;
    }
  }

  /** Stripping a line as `readlines()` yields it leaves no newline behind. */
  lemma StripLineNoBreak(line: string, last: bool)
    requires IsLine(line, last)
    ensures '\n' !in Strip(line)
  {
    var n, i, j := |line|, LeadingSpace(line), TrailingStart(line);
    if i < n {
      assert Strip(line) == line[i..j];
      if line[n - 1] == '\n' {
        assert IsSpace(line[n - 1]);
        assert j <= n - 1;
      }
      assert forall k :: i <= k < j && k < n - 1 ==> line[k] == line[..n - 1][k];
      assert forall m :: 0 <= m < j - i ==> line[i..j][m] == line[i + m];
    }
  }

  /** `w` occurs in `t` starting at index `i`. */
  predicate PrefixAt(t: string, i: nat, w: string) {
    i + |w| <= |t| && t[i..i + |w|] == w
  }

  /** `w in t` for strings: `w` occurs in `t` as a contiguous slice. */
  predicate Contains(t: string, w: string) {
    exists i: nat :: i <= |t| && PrefixAt(t, i, w)
  }
}
