/** ASCII text and its bytes. */
module Ascii {
  import opened Digests

  predicate IsAscii(s: string) {
    forall c | c in s :: c as int < 128
  }

  function ByteOf(c: char): (b: byte)
    ensures c as int < 128 ==> b == c as int
  {
    c as int % 256
  }

  function BytesOf(s: string): (b: Content)
    requires IsAscii(s)
    ensures |b| == |s|
  {
    seq(|s|, i requires 0 <= i < |s| => ByteOf(s[i]))
  }

  function TextOf(b: Content): (s: string)
    ensures |s| == |b|
  {
    seq(|b|, i requires 0 <= i < |b| => b[i] as char)
  }

  lemma TextOfBytes(s: string)
    requires IsAscii(s)
    ensures TextOf(BytesOf(s)) == s
  {
    forall i | 0 <= i < |s| ensures TextOf(BytesOf(s))[i] == s[i] {
      assert s[i] in s;
    }
  }

  lemma BytesOfText(b: Content)
    requires IsAscii(TextOf(b))
    ensures BytesOf(TextOf(b)) == b
  {
    forall i | 0 <= i < |b| ensures BytesOf(TextOf(b))[i] == b[i] {
      assert TextOf(b)[i] in TextOf(b);
    }
  }

  lemma AsciiConcat(a: string, b: string)
    requires IsAscii(a) && IsAscii(b)
    ensures IsAscii(a + b) && BytesOf(a + b) == BytesOf(a) + BytesOf(b)
  {
    assert forall c | c in a + b :: c in a || c in b;
  }
}
