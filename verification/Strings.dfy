/** The few pieces of `std::string` the server relies on. */
module Strings {

  datatype Option<+T> = None | Some(value: T)

  /** Pattern `p` occurs in `s` at position `k`. */
  predicate MatchesAt(s: string, p: string, k: int) {
    0 <= k <= |s| - |p| && s[k..k + |p|] == p
  }

  /** `std::string::find`: the first occurrence of `p` at or after `from`. */
  function Find(s: string, p: string, from: nat): (r: Option<nat>)
    ensures r.Some? ==> from <= r.value && MatchesAt(s, p, r.value)
    ensures r.Some? ==> forall k | from <= k < r.value :: !MatchesAt(s, p, k)
    ensures r.None? ==> forall k | from <= k :: !MatchesAt(s, p, k)
    decreases |s| - from
  {
    if |s| < from + |p| then None
    else if MatchesAt(s, p, from) then Some(from)
    else Find(s, p, from + 1)
  }

  /** `std::string::find` for a single character, from the start. */
  function FindChar(s: string, c: char): (r: Option<nat>)
    ensures r.Some? ==> r.value < |s| && s[r.value] == c && forall k | 0 <= k < r.value :: s[k] != c
    ensures r.None? ==> c !in s
  {
    if s == "" then None
    else if s[0] == c then Some(0)
    else
      match FindChar(s[1..], c)
      case None => None
      case Some(k) => assert forall j | 1 <= j < k + 1 :: s[j] == s[1..][j - 1]; Some(k + 1)
  }

  /** `std::string::rfind` for a single character. */
  function RFindChar(s: string, c: char): (r: Option<nat>)
    ensures r.Some? ==> r.value < |s| && s[r.value] == c && forall k | r.value < k < |s| :: s[k] != c
    ensures r.None? ==> c !in s
  {
    if s == "" then None
    else if s[|s| - 1] == c then Some(|s| - 1)
    else
      var r := RFindChar(s[..|s| - 1], c);
      assert s == s[..|s| - 1] + [s[|s| - 1]];
      assert forall j | 0 <= j < |s| - 1 :: s[j] == s[..|s| - 1][j];
      r
  }

  /** What stands before the first `c` is free of it, and so is what stands behind the last one. */
  lemma {:induction false} FirstCharIs(x: string, c: char, y: string)
    requires c !in x
    ensures FindChar(x + [c] + y, c) == Some(|x|)
    decreases |x|
  {
    var s := x + [c] + y;
    if x == "" {
      assert s[0] == c;
    } else {
      assert s[0] == x[0];
      assert s[1..] == x[1..] + [c] + y;
      FirstCharIs(x[1..], c, y);
    }
  }

  lemma {:induction false} LastCharIs(x: string, c: char, y: string)
    requires c !in y
    ensures RFindChar(x + [c] + y, c) == Some(|x|)
    decreases |y|
  {
    var s, n := x + [c] + y, |x| + 1 + |y|;
    if y == "" {
      assert s[n - 1] == c;
    } else {
      var front := y[..|y| - 1];
      assert y == front + [y[|y| - 1]];
      assert s[n - 1] == y[|y| - 1];
      assert s[..n - 1] == x + [c] + front;
      LastCharIs(x, c, front);
    }
  }

  lemma {:induction false} FindFrom(x: string, name: string, c: char, y: string)
    requires c !in name
    ensures Find(x + name + [c] + y, [c], |x|) == Some(|x| + |name|)
    decreases |name|
  {
    var s := x + name + [c] + y;
    if name == "" {
      assert s[|x|..|x| + 1] == [c];
    } else {
      assert s[|x|..|x| + 1] == [name[0]];
      FindFrom(x + [name[0]], name[1..], c, y);
      assert s == x + [name[0]] + name[1..] + [c] + y;
    }
  }

  function Map<A, B>(f: A -> B, s: seq<A>): (r: seq<B>)
    ensures |r| == |s| && forall i | 0 <= i < |s| :: r[i] == f(s[i])
  {
    seq(|s|, i requires 0 <= i < |s| => f(s[i]))
  }
}
