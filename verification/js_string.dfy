/** The two JavaScript string/array built-ins the middleware relies on:
    `String.prototype.split` with a one-character separator, and
    `Array.prototype.join` with the same separator.

    `split` cuts at EVERY occurrence of the separator and keeps the empty
    pieces: `"".split(' ')` is `[""]`, `"a  b".split(' ')` is `["a", "", "b"]`.
    `join` puts the separator between consecutive elements; `[].join(' ')`
    is `""`. */
module JsString {

  /** `s.indexOf(c)` for a character known to occur: its first position. */
  function IndexOf(s: string, c: char): (i: nat)
    requires c in s
    ensures i < |s| && s[i] == c
    ensures c !in s[..i]
  {
    if s[0] == c then 0
    else
      assert s == [s[0]] + s[1..];
      1 + IndexOf(s[1..], c)
  }

  /** The first occurrence is determined by the two facts `IndexOf` promises. */
  lemma IndexOfUnique(s: string, c: char, j: nat)
    requires j < |s| && s[j] == c && c !in s[..j]
    ensures IndexOf(s, c) == j
  {
  }

  /** `s.split(c)`: the pieces of `s` between occurrences of `c`, empty
      pieces included. */
  function Split(s: string, c: char): (r: seq<string>)
    ensures |r| >= 1
    ensures forall k :: 0 <= k < |r| ==> c !in r[k]
    decreases |s|
  {
    if c !in s then [s]
    else
      var i := IndexOf(s, c);
      [s[..i]] + Split(s[i + 1..], c)
  }

  /** `xs.join(c)`: the elements of `xs` with `c` between neighbours. */
  function Join(xs: seq<string>, c: char): (r: string)
    ensures xs == [] ==> r == ""
    ensures |xs| == 1 ==> r == xs[0]
    ensures xs != [] ==> xs[0] <= r
    decreases |xs|
  {
    if xs == [] then ""
    else if |xs| == 1 then xs[0]
    else xs[0] + [c] + Join(xs[1..], c)
  }

  /** A string without the separator is one piece. */
  lemma SplitNoSeparator(s: string, c: char)
    requires c !in s
    ensures Split(s, c) == [s]
  {
  }

  /** A split cuts at the first separator and goes on after it. */
  lemma SplitAt(s: string, i: nat, c: char)
    requires i < |s| && s[i] == c && c !in s[..i]
    ensures Split(s, c) == [s[..i]] + Split(s[i + 1..], c)
  {
    IndexOfUnique(s, c, i);
  }

  /** `SplitConcat` when `a` holds no separator: `a` is the first piece. */
  lemma SplitConcatFirst(a: string, b: string, c: char)
    requires c !in a
    ensures Split(a + [c] + b, c) == [a] + Split(b, c)
  {
    var s := a + [c] + b;
    assert s[..|a|] == a;
    assert s[|a| + 1..] == b;
    SplitAt(s, |a|, c);
  }

  /** Concatenation of sequences is associative. */
  lemma AppendAssociative<T>(x: seq<T>, y: seq<T>, z: seq<T>)
    ensures x + (y + z) == (x + y) + z
  {
  }

  /** `SplitConcat` when `a` holds a separator at its first position `i`,
      given the property for the part of `a` after it. */
  lemma SplitConcatLater(a: string, b: string, c: char, i: nat)
    requires i < |a| && a[i] == c && c !in a[..i]
    requires Split(a[i + 1..] + [c] + b, c) == Split(a[i + 1..], c) + Split(b, c)
    ensures Split(a + [c] + b, c) == Split(a, c) + Split(b, c)
  {
    var s := a + [c] + b;
    var first, later, tail := a[..i], Split(a[i + 1..], c), Split(b, c);
    assert Split(s, c) == [first] + (later + tail) by {
      assert s[..i] == first;
      assert s[i + 1..] == a[i + 1..] + [c] + b;
      SplitAt(s, i, c);
    }
    assert Split(a, c) == [first] + later by {
      SplitAt(a, i, c);
    }
    AppendAssociative([first], later, tail);
  }

  /** Splitting at a separator between `a` and `b` splits both halves
      independently. */
  lemma {:induction false} SplitConcat(a: string, b: string, c: char)
    ensures Split(a + [c] + b, c) == Split(a, c) + Split(b, c)
    decreases |a|
  {
    if c !in a {
      SplitConcatFirst(a, b, c);
      SplitNoSeparator(a, c);
    } else {
      var i := IndexOf(a, c);
      SplitConcat(a[i + 1..], b, c);
      SplitConcatLater(a, b, c, i);
    }
  }

  /** Joining the pieces of a split gives back the original string. */
  lemma {:induction false} JoinSplit(s: string, c: char)
    ensures Join(Split(s, c), c) == s
    decreases |s|
  {
    if c in s {
      var i := IndexOf(s, c);
      var rest := Split(s[i + 1..], c);
      JoinSplit(s[i + 1..], c);
      assert ([s[..i]] + rest)[1..] == rest;
      assert s == s[..i] + [c] + s[i + 1..];
    }
  }

  /** `SplitJoin` for a list of two or more, given it for the list's tail. */
  lemma SplitJoinStep(xs: seq<string>, c: char)
    requires |xs| > 1 && c !in xs[0]
    requires Split(Join(xs[1..], c), c) == xs[1..]
    ensures Split(Join(xs, c), c) == xs
  {
    var head, rest := xs[0], Join(xs[1..], c);
    assert Join(xs, c) == head + [c] + rest;
    assert Split(head + [c] + rest, c) == [head] + xs[1..] by {
      SplitConcat(head, rest, c);
      SplitNoSeparator(head, c);
    }
    assert [head] + xs[1..] == xs;
  }

  /** Splitting a join gives back the list, provided no element contains the
      separator and the list is non-empty (`[""]` and `[]` join alike). */
  lemma {:induction false} SplitJoin(xs: seq<string>, c: char)
    requires xs != []
    requires forall k :: 0 <= k < |xs| ==> c !in xs[k]
    ensures Split(Join(xs, c), c) == xs
    decreases |xs|
  {
    if |xs| == 1 {
      SplitNoSeparator(xs[0], c);
    } else {
      assert forall k :: 0 <= k < |xs| - 1 ==> xs[1..][k] == xs[k + 1];
      SplitJoin(xs[1..], c);
      SplitJoinStep(xs, c);
    }
  }

  /** The empty string is one empty piece. */
  lemma SplitEmpty()
    ensures Split("", ' ') == [""]
  {
  }

  /** Two adjacent separators leave an empty piece between them. */
  lemma SplitDoubleSpace()
    ensures Split("a  b", ' ') == ["a", "", "b"]
  {
    var xs := ["a", "", "b"];
    assert Join(xs[2..], ' ') == "b";
    assert Join(xs[1..], ' ') == " b";
    assert Join(xs, ' ') == "a  b";
    SplitJoin(xs, ' ');
  }
}
