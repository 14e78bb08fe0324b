/**
 * JavaScript's `s.split(' ')`, which both authentication middlewares use to take
 * the token out of an `Authorization: Bearer <token>` header.
 */
module Text {
  import opened Common

  /**
   * `s.split(' ')`: the pieces between single spaces, empty pieces included, so
   * that `"".split(' ')` is `[""]` and `"a  b".split(' ')` is `["a", "", "b"]`.
   */
  function Split(s: string): (parts: seq<string>)
    ensures |parts| >= 1
    ensures |parts| == 1 <==> ' ' !in s
    ensures forall k :: 0 <= k < |parts| ==> ' ' !in parts[k]
    decreases |s|
  {
    if s == [] then [""]
    else
      assert s == [s[0]] + s[1..];
      var rest := Split(s[1..]);
      if s[0] == ' ' then [""] + rest
      else [[s[0]] + rest[0]] + rest[1..]
  }

  /** `parts.join(' ')`. */
  function Join(parts: seq<string>): string
    requires |parts| >= 1
    decreases |parts|
  {
    if |parts| == 1 then parts[0] else parts[0] + " " + Join(parts[1..])
  }

  /** Joining the pieces back with single spaces gives the string that was split. */
  lemma {:induction false} JoinSplit(s: string)
    ensures Join(Split(s)) == s
    decreases |s|
  {
    if s != [] {
      assert s == [s[0]] + s[1..];
      var rest := Split(s[1..]);
      JoinSplit(s[1..]);
      if s[0] == ' ' {
        assert Split(s) == [""] + rest;
        assert ([""] + rest)[1..] == rest;
      } else if |rest| == 1 {
        assert Split(s) == [[s[0]] + rest[0]];
      } else {
        var parts := [[s[0]] + rest[0]] + rest[1..];
        assert Split(s) == parts;
        assert parts[1..] == rest[1..];
        assert Join(rest) == rest[0] + " " + Join(rest[1..]);
      }
    }
  }

  /** A word without spaces splits into itself. */
  lemma {:induction false} SplitWord(w: string)
    requires ' ' !in w
    ensures Split(w) == [w]
    decreases |w|
  {
    if w != [] {
      assert w == [w[0]] + w[1..];
      SplitWord(w[1..]);
    }
  }

  /** A leading word followed by a space is split off as the first piece. */
  lemma {:induction false} SplitAfterWord(w: string, rest: string)
    requires ' ' !in w
    ensures Split(w + " " + rest) == [w] + Split(rest)
    decreases |w|
  {
    var s := w + " " + rest;
    if w == [] {
      assert s[0] == ' ' && s[1..] == rest;
    } else {
      assert w == [w[0]] + w[1..];
      assert s[0] == w[0] && s[1..] == w[1..] + " " + rest;
      SplitAfterWord(w[1..], rest);
    }
  }

  /** Splitting a join of space-free pieces gives the pieces back. */
  lemma {:induction false} SplitJoin(parts: seq<string>)
    requires |parts| >= 1
    requires forall k :: 0 <= k < |parts| ==> ' ' !in parts[k]
    ensures Split(Join(parts)) == parts
    decreases |parts|
  {
    if |parts| == 1 {
      SplitWord(parts[0]);
    } else {
      SplitAfterWord(parts[0], Join(parts[1..]));
      SplitJoin(parts[1..]);
    }
  }

  /** `s.split(' ')[1]`: the second piece, absent (`undefined`) when `s` has no space. */
  function SecondWord(s: string): (w: Option<string>)
    ensures w.Some? <==> ' ' in s
    ensures w.Some? ==> ' ' !in w.value
  {
    var parts := Split(s);
    if |parts| >= 2 then Some(parts[1]) else None
  }

  /** The header a client builds as `Bearer ${token}` yields the token back. */
  lemma BearerSecondWord(token: string)
    requires ' ' !in token
    ensures SecondWord("Bearer " + token) == Some(token)
  {
    assert "Bearer " + token == "Bearer" + " " + token;
    SplitAfterWord("Bearer", token);
    SplitWord(token);
  }
}
