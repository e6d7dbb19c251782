/**
 The JavaScript string built-ins the page script relies on, over `string`
 (one `char` per code point): `includes`, and `split` and `join` with a
 one-character separator. `LastIndexOf` is not called by the script: it is
 a helper that defines `Split` and states the last-hyphen rule.
 */
module JsText {

  /** `p` occurs in `s` starting at position `i` */
  predicate OccursAt(s: string, p: string, i: int) {
    0 <= i <= |s| - |p| && s[i..i + |p|] == p
  }

  /** `s.includes(p)`: `p` occurs in `s` at some position */
  predicate Includes(s: string, p: string) {
    exists i | 0 <= i <= |s| - |p| :: OccursAt(s, p, i)
  }

  /** `s.lastIndexOf(c)`: the position of the last `c` in `s`, or -1 */
  function LastIndexOf(s: string, c: char): (k: int)
    ensures -1 <= k < |s|
    ensures k >= 0 ==> s[k] == c
    ensures forall j | k < j < |s| :: s[j] != c
    ensures k == -1 <==> c !in s
  {
    if |s| == 0 then -1
    else if s[|s| - 1] == c then |s| - 1
    else LastIndexOf(s[..|s| - 1], c)
  }

  /** `s.split(c)`: the maximal `c`-free pieces of `s`, in order. Like the
      built-in, an empty string splits into one empty piece. */
  function Split(s: string, c: char): (parts: seq<string>)
    ensures |parts| >= 1
    ensures c in s <==> |parts| >= 2
    ensures forall i | 0 <= i < |parts| :: c !in parts[i]
    decreases |s|
  {
    var k := LastIndexOf(s, c);
    if k < 0 then [s]
    else Split(s[..k], c) + [s[k + 1..]]
  }

  /** `parts.join(c)`: the pieces with one `c` between neighbours */
  function Join(parts: seq<string>, c: char): string
    requires |parts| >= 1
  {
    if |parts| == 1 then parts[0]
    else Join(parts[..|parts| - 1], c) + [c] + parts[|parts| - 1]
  }

  /** Splitting and re-joining on the same separator gives the string back. */
  lemma {:induction false} JoinSplit(s: string, c: char)
    ensures Join(Split(s, c), c) == s
    decreases |s|
  {
    var k := LastIndexOf(s, c);
    if k >= 0 {
      var parts := Split(s, c);
      JoinSplit(s[..k], c);
      assert parts[..|parts| - 1] == Split(s[..k], c);
      assert s == s[..k] + [c] + s[k + 1..];
    }
  }

  lemma LastIndexOfJoined(a: string, c: char, b: string)
    requires c !in b
    ensures LastIndexOf(a + [c] + b, c) == |a|
  {
    var s := a + [c] + b;
    var k := LastIndexOf(s, c);
    assert s[|a|] == c;
  }

  lemma SplitAround(s: string, k: int)
    requires 0 <= k < |s|
    ensures s == s[..k] + [s[k]] + s[k + 1..]
  {
  }

  lemma PiecesOfJoined(a: string, c: char, b: string)
    ensures (a + [c] + b)[..|a|] == a && (a + [c] + b)[|a| + 1..] == b
  {
  }

  /** Joining separator-free pieces and splitting again gives the pieces back. */
  lemma {:induction false} SplitJoin(parts: seq<string>, c: char)
    requires |parts| >= 1
    requires forall i | 0 <= i < |parts| :: c !in parts[i]
    ensures Split(Join(parts, c), c) == parts
    decreases |parts|
  {
    if |parts| > 1 {
      var init := parts[..|parts| - 1];
      var last := parts[|parts| - 1];
      var a := Join(init, c);
      LastIndexOfJoined(a, c, last);
      var s := a + [c] + last;
      assert Join(parts, c) == s;
      assert s[..|a|] == a;
      assert s[|a| + 1..] == last;
      assert Split(s, c) == Split(a, c) + [last];
      SplitJoin(init, c);
      assert init + [last] == parts;
    }
  }

  /** The last piece of a split is the text after the last separator, and
      the other pieces re-join to the text before it. */
  lemma SplitAtLast(s: string, c: char)
    requires c in s
    ensures var parts := Split(s, c);
      var k := LastIndexOf(s, c);
      && parts[|parts| - 1] == s[k + 1..]
      && Join(parts[..|parts| - 1], c) == s[..k]
  {
    var parts := Split(s, c);
    var k := LastIndexOf(s, c);
    var init := Split(s[..k], c);
    assert parts == init + [s[k + 1..]];
    assert parts[..|parts| - 1] == init;
    JoinSplit(s[..k], c);
  }

  /** A string lacking the first character of `p` does not include `p`. */
  lemma NotIncludedWithoutFirst(s: string, p: string)
    requires |p| > 0 && p[0] !in s
    ensures !Includes(s, p)
  {
    forall i | 0 <= i <= |s| - |p| ensures !OccursAt(s, p, i) {
      assert s[i..i + |p|][0] == s[i];
    }
  }

  /** `includes` cannot find `p` in `a + b` when `a` lacks it, `b` does not
      start with a character of `p`, and `b` lacks the first character of `p`. */
  lemma NotIncludedInConcat(a: string, b: string, p: string)
    requires |p| > 0
    requires !Includes(a, p)
    requires |b| > 0 ==> b[0] !in p
    requires p[0] !in b
    ensures !Includes(a + b, p)
  {
    var s := a + b;
    forall i | 0 <= i <= |s| - |p|
      ensures !OccursAt(s, p, i)
    {
      if i + |p| <= |a| {
        assert s[i..i + |p|] == a[i..i + |p|];
        assert !OccursAt(a, p, i);
      } else if i >= |a| {
        // the window starts inside `b`
        assert s[i..i + |p|][0] == b[i - |a|];
      } else {
        // the window straddles the join: it holds `b[0]`
        assert s[i..i + |p|][|a| - i] == b[0];
      }
    }
  }
}
