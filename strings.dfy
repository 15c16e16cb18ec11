/**
 * The two functions of Go's `strings` package that the bot uses on message
 * text, over `string` = `seq<char>`: `HasPrefix`, and `Split` with the
 * one-character separator " ". `Join` is the inverse of `Split` and is used
 * to state what `Split` computes.
 */
module Strings {

  const Space: char := ' '

  /** `strings.HasPrefix(s, p)`: `p` is an initial segment of `s`. */
  predicate HasPrefix(s: string, p: string)
  {
    |p| <= |s| && s[..|p|] == p
  }

  /**
   * `strings.Split(s, " ")`: the pieces of `s` between the single spaces.
   * Two adjacent spaces give an empty piece, and so do a leading or a
   * trailing space; the empty string gives the one piece "".
   */
  function Split(s: string): (r: seq<string>)
    ensures |r| >= 1
    ensures forall k :: 0 <= k < |r| ==> Space !in r[k]
    decreases |s|
  {
    if |s| == 0 then [""]
    else
      var rest := Split(s[1..]);
      if s[0] == Space then [""] + rest
      else [[s[0]] + rest[0]] + rest[1..]
  }

  /** `strings.Join(parts, " ")`: the pieces with one space between neighbours. */
  function Join(parts: seq<string>): (s: string)
    requires |parts| >= 1
    ensures |s| >= |parts| - 1
    decreases |parts|
  {
    if |parts| == 1 then parts[0] else parts[0] + [Space] + Join(parts[1..])
  }

  /** Splitting and joining again gives back the original text. */
  lemma {:induction false} JoinSplit(s: string)
    ensures Join(Split(s)) == s
    decreases |s|
  {
    if |s| > 0 {
      JoinSplit(s[1..]);
      var rest := Split(s[1..]);
      if s[0] == Space {
        assert Split(s)[1..] == rest;
        assert s == [s[0]] + s[1..];
      } else {
        var r := Split(s);
        assert r[0] == [s[0]] + rest[0];
        if |rest| == 1 {
          assert s == [s[0]] + rest[0];
        } else {
          assert r[1..] == rest[1..];
          assert Join(rest) == rest[0] + [Space] + Join(rest[1..]);
          assert s == [s[0]] + s[1..];
        }
      }
    }
  }

  /** Prepending a word without spaces extends the first piece only. */
  lemma {:induction false} SplitPrepend(w: string, s: string)
    requires Space !in w
    ensures Split(w + s) == [w + Split(s)[0]] + Split(s)[1..]
    decreases |w|
  {
    if |w| > 0 {
      SplitPrepend(w[1..], s);
      assert (w + s)[1..] == w[1..] + s;
      assert (w + s)[0] == w[0];
      assert [w[0]] + (w[1..] + Split(s)[0]) == w + Split(s)[0];
    } else {
      var r := Split(s);
      assert w + s == s && w + r[0] == r[0];
      assert r == [r[0]] + r[1..];
    }
  }

  /** Joining pieces that hold no space and splitting again gives back the pieces. */
  lemma {:induction false} SplitJoin(parts: seq<string>)
    requires |parts| >= 1
    requires forall k :: 0 <= k < |parts| ==> Space !in parts[k]
    ensures Split(Join(parts)) == parts
    decreases |parts|
  {
    if |parts| == 1 {
      SplitPrepend(parts[0], "");
      assert parts[0] + "" == parts[0];
    } else {
      var tail := Join(parts[1..]);
      SplitJoin(parts[1..]);
      SplitPrepend(parts[0], [Space] + tail);
      assert ([Space] + tail)[1..] == tail;
      assert Split([Space] + tail) == [""] + parts[1..];
      assert parts[0] + [Space] + tail == parts[0] + ([Space] + tail);
      assert parts[0] + "" == parts[0];
    }
  }

  /**
   * The first piece of a split is the longest space-free prefix of the text:
   * it is a prefix, it holds no space, and either it is the whole text or a
   * space follows it.
   */
  lemma {:induction false} SplitFirst(s: string)
    ensures HasPrefix(s, Split(s)[0])
    ensures Split(s)[0] == s || s[|Split(s)[0]|] == Space
    ensures |Split(s)| == 1 <==> Space !in s
    decreases |s|
  {
    if |s| > 0 {
      SplitFirst(s[1..]);
      if s[0] != Space {
        assert s == [s[0]] + s[1..];
      }
    }
  }
}
