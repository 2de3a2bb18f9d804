/** Splitting, joining and lower-casing of strings, with the behaviour of Rust's `str` methods. */
module Text {

  /** The position of the first `c`, or the length of `s` when there is none. */
  function IndexOf(s: string, c: char): (i: nat)
    ensures i <= |s|
    ensures i < |s| ==> s[i] == c
    ensures c !in s[..i]
  {
    if s == [] || s[0] == c then 0 else
      var k := IndexOf(s[1..], c);
      assert s[..1 + k] == [s[0]] + s[1..][..k];
      1 + k
  }

  /** The pieces of `s` between occurrences of `c`: always at least one, possibly empty ones. */
  function Split(s: string, c: char): (parts: seq<string>)
    ensures |parts| > 0
    ensures forall p | p in parts :: c !in p
    decreases |s|
  {
    var i := IndexOf(s, c);
    if i == |s| then
      assert s[..i] == s;
      [s]
    else
      [s[..i]] + Split(s[i + 1..], c)
  }

  function Join(parts: seq<string>, c: char): string
  {
    if parts == [] then ""
    else if |parts| == 1 then parts[0]
    else parts[0] + [c] + Join(parts[1..], c)
  }

  /** `to_ascii_lowercase`. */
  function LowerChar(c: char): char {
    if 'A' <= c <= 'Z' then c - 'A' + 'a' else c
  }

  function Lower(s: string): (t: string)
    ensures |t| == |s|
  {
    seq(|s|, i requires 0 <= i < |s| => LowerChar(s[i]))
  }

  predicate EndsWith(s: string, suffix: string) {
    |suffix| <= |s| && s[|s| - |suffix|..] == suffix
  }

  lemma {:induction false} IndexOfConcat(head: string, c: char, tail: string)
    requires c !in head
    ensures IndexOf(head + [c] + tail, c) == |head|
  {
    var s := head + [c] + tail;
    if head == [] {
    } else {
      assert s[1..] == head[1..] + [c] + tail;
      assert s[0] == head[0];
      IndexOfConcat(head[1..], c, tail);
    }
  }

  lemma {:induction false} IndexOfAbsent(s: string, c: char)
    requires c !in s
    ensures IndexOf(s, c) == |s|
  {
    if s != [] {
      IndexOfAbsent(s[1..], c);
    }
  }

  lemma {:induction false} SplitConcat(head: string, c: char, tail: string)
    requires c !in head
    ensures Split(head + [c] + tail, c) == [head] + Split(tail, c)
  {
    var s := head + [c] + tail;
    IndexOfConcat(head, c, tail);
    assert s[..|head|] == head && s[|head| + 1..] == tail;
  }

  lemma {:induction false} SplitWhole(s: string, c: char)
    requires c !in s
    ensures Split(s, c) == [s]
  {
    IndexOfAbsent(s, c);
  }

  /** Joining the pieces gives the string back. */
  lemma {:induction false} JoinOfSplit(s: string, c: char)
    ensures Join(Split(s, c), c) == s
    decreases |s|
  {
    hide Split, Join, IndexOf;
    var i := IndexOf(s, c);
    SplitUnfold(s, c);
    if i < |s| {
      JoinOfSplit(s[i + 1..], c);
      JoinCons(s[..i], Split(s[i + 1..], c), c);
      assert s == s[..i] + [c] + s[i + 1..];
    } else {
      JoinOne(s, c);
    }
  }

  lemma SplitUnfold(s: string, c: char)
    ensures var i := IndexOf(s, c);
      Split(s, c) == if i == |s| then [s] else [s[..i]] + Split(s[i + 1..], c)
  {
    hide IndexOf;
  }

  lemma JoinOne(part: string, c: char)
    ensures Join([part], c) == part
  {
  }

  lemma JoinCons(head: string, tail: seq<string>, c: char)
    requires tail != []
    ensures Join([head] + tail, c) == head + [c] + Join(tail, c)
  {
    assert ([head] + tail)[1..] == tail;
  }

  /** Splitting a join of separator-free pieces gives the pieces back. */
  lemma {:induction false} SplitOfJoin(parts: seq<string>, c: char)
    requires parts != []
    requires forall p | p in parts :: c !in p
    ensures Split(Join(parts, c), c) == parts
  {
    if |parts| == 1 {
      SplitWhole(parts[0], c);
    } else {
      SplitOfJoin(parts[1..], c);
      SplitConcat(parts[0], c, Join(parts[1..], c));
    }
  }

  lemma {:induction false} JoinAppend(a: seq<string>, b: seq<string>, c: char)
    requires a != [] && b != []
    ensures Join(a + b, c) == Join(a, c) + [c] + Join(b, c)
  {
    if |a| == 1 {
      assert (a + b)[1..] == b;
    } else {
      JoinAppend(a[1..], b, c);
      assert (a + b)[1..] == a[1..] + b;
      assert Join(a + b, c) == a[0] + [c] + (Join(a[1..], c) + [c] + Join(b, c));
    }
  }

  /** Splitting distributes over a separator anywhere, not only the first one. */
  lemma {:induction false} SplitAppend(a: string, c: char, b: string)
    ensures Split(a + [c] + b, c) == Split(a, c) + Split(b, c)
  {
    JoinOfSplit(a, c);
    JoinOfSplit(b, c);
    JoinAppend(Split(a, c), Split(b, c), c);
    SplitOfJoin(Split(a, c) + Split(b, c), c);
  }

  lemma {:induction false} JoinedChars(parts: seq<string>, separator: char, c: char)
    requires c in Join(parts, separator)
    ensures c == separator || exists part :: part in parts && c in part
  {
    if |parts| > 1 {
      assert parts[0] in parts;
      if c !in parts[0] && c != separator {
        assert c in Join(parts[1..], separator);
        JoinedChars(parts[1..], separator, c);
        assert forall part | part in parts[1..] :: part in parts;
      }
    } else if |parts| == 1 {
      assert parts[0] in parts;
    }
  }
}
