/**
 * The .NET string operations the component relies on: String.IndexOf,
 * String.LastIndexOf and String.Split(char), plus the inverse of Split that
 * the save path builds by concatenation (`a + " " + b + ...`).
 */
module TextTokens {

  /** String.IndexOf(char): first position of `ch`, or -1. */
  function IndexOf(s: string, ch: char): (i: int)
    ensures -1 <= i < |s|
    ensures i == -1 <==> ch !in s
    ensures 0 <= i ==> s[i] == ch && ch !in s[..i]
  {
    if |s| == 0 then -1
    else if s[0] == ch then 0
    else
      var k := IndexOf(s[1..], ch);
      if k < 0 then -1 else k + 1
  }

  /** String.LastIndexOf(char): last position of `ch`, or -1. */
  function LastIndexOf(s: string, ch: char): (i: int)
    ensures -1 <= i < |s|
    ensures i == -1 <==> ch !in s
    ensures 0 <= i ==> s[i] == ch && ch !in s[i + 1..]
  {
    if |s| == 0 then -1
    else if s[|s| - 1] == ch then |s| - 1
    else LastIndexOf(s[..|s| - 1], ch)
  }

  /** String.Split(sep) without options: empty pieces are kept, the result is never empty. */
  function Split(s: string, sep: char): (parts: seq<string>)
    ensures |parts| >= 1
    ensures forall k :: 0 <= k < |parts| ==> sep !in parts[k]
    decreases |s|
  {
    var i := IndexOf(s, sep);
    if i < 0 then [s] else [s[..i]] + Split(s[i + 1..], sep)
  }

  /** The pieces separated by single `sep` characters. */
  function Join(parts: seq<string>, sep: char): string
  {
    if |parts| == 0 then ""
    else if |parts| == 1 then parts[0]
    else parts[0] + [sep] + Join(parts[1..], sep)
  }

  lemma {:induction false} JoinSplit(s: string, sep: char)
    ensures Join(Split(s, sep), sep) == s
    decreases |s|
  {
    var i := IndexOf(s, sep);
    if i >= 0 {
      var head, tail := s[..i], s[i + 1..];
      JoinSplit(tail, sep);
      JoinCons(head, Split(tail, sep), sep);
      PiecesAround(s, i);
    }
  }

  /** A piece in front of at least one more is followed by a separator. */
  lemma JoinCons(head: string, rest: seq<string>, sep: char)
    requires |rest| >= 1
    ensures Join([head] + rest, sep) == head + [sep] + Join(rest, sep)
  {
    var parts := [head] + rest;
    assert parts[0] == head && parts[1..] == rest;
  }

  /** A string is the text before position i, the character there, and the text after. */
  lemma PiecesAround(s: string, i: nat)
    requires i < |s|
    ensures s == s[..i] + [s[i]] + s[i + 1..]
  {
  }

  /** Splitting at the first separator peels off the piece in front of it. */
  lemma SplitAfterPrefix(a: string, sep: char, b: string)
    requires sep !in a
    ensures Split(a + [sep] + b, sep) == [a] + Split(b, sep)
  {
    var s := a + [sep] + b;
    assert s[|a|] == sep;
    assert s[..|a|] == a;
    assert IndexOf(s, sep) == |a|;
    assert s[|a| + 1..] == b;
  }

  lemma {:induction false} SplitJoin(parts: seq<string>, sep: char)
    requires |parts| >= 1
    requires forall k :: 0 <= k < |parts| ==> sep !in parts[k]
    ensures Split(Join(parts, sep), sep) == parts
  {
    if |parts| > 1 {
      var a, rest := parts[0], parts[1..];
      assert Join(parts, sep) == a + [sep] + Join(rest, sep);
      SplitAfterPrefix(a, sep, Join(rest, sep));
      assert forall k :: 0 <= k < |rest| ==> rest[k] == parts[k + 1];
      SplitJoin(rest, sep);
      assert parts == [a] + rest;
    }
  }

  /** Appending a piece at the back adds one separator before it. */
  lemma {:induction false} JoinSnoc(parts: seq<string>, last: string, sep: char)
    requires |parts| >= 1
    ensures Join(parts + [last], sep) == Join(parts, sep) + [sep] + last
    decreases |parts|
  {
    var all := parts + [last];
    if |parts| > 1 {
      assert all[1..] == parts[1..] + [last];
      JoinSnoc(parts[1..], last, sep);
    } else {
      assert all == [parts[0], last];
      assert all[1..] == [last];
    }
  }
}
