/** The caller-supplied error buffer of merkle_root and the bounded write
    that fills it (C's snprintf with a plain message as its format). The
    buffer is modelled by its contents; a write returns the new contents. */
module ErrorBuffer {

  function Min(a: nat, b: nat): (m: nat)
    ensures m <= a && m <= b && (m == a || m == b)
  {
    if a < b then a else b
  }

  /** snprintf(buf, size, msg) for a message without conversions: nothing
      is written when size is 0; otherwise the longest prefix of msg that
      leaves room for the terminator, then a NUL. No byte at or beyond
      position size changes. */
  function Snprintf(buf: seq<char>, size: nat, msg: string): (r: seq<char>)
    requires size <= |buf|
    ensures |r| == |buf|
    ensures r[size..] == buf[size..]
    ensures size == 0 ==> r == buf
    ensures size > 0 ==> '\0' in r[..size]
  {
    if size == 0 then buf
    else
      var k := Min(|msg|, size - 1);
      var r := msg[..k] + ['\0'] + buf[k + 1..];
      assert r[k] == '\0' && k < size;
      r
  }

  /** The C string a character buffer holds: everything before its first NUL
      (the whole buffer if it has none). */
  function CString(s: seq<char>): (c: string)
    ensures |c| <= |s| && c == s[..|c|]
    ensures '\0' !in c
    ensures |c| < |s| ==> s[|c|] == '\0'
  {
    if s == [] || s[0] == '\0' then [] else [s[0]] + CString(s[1..])
  }

  lemma {:induction false} CStringOfTerminated(p: string, rest: seq<char>)
    requires '\0' !in p
    ensures CString(p + ['\0'] + rest) == p
    decreases |p|
  {
    if p == [] {
      assert (p + ['\0'] + rest)[0] == '\0';
    } else {
      assert (p + ['\0'] + rest)[1..] == p[1..] + ['\0'] + rest;
      CStringOfTerminated(p[1..], rest);
    }
  }

  /** Reading the buffer back after a write with size > 0 yields the message,
      truncated to size - 1 characters when it does not fit. */
  lemma SnprintfReadsBack(buf: seq<char>, size: nat, msg: string)
    requires 0 < size <= |buf|
    requires '\0' !in msg
    ensures CString(Snprintf(buf, size, msg)) == msg[..Min(|msg|, size - 1)]
  {
    var k := Min(|msg|, size - 1);
    assert '\0' !in msg[..k] by {
      assert forall c :: c in msg[..k] ==> c in msg;
    }
    CStringOfTerminated(msg[..k], buf[k + 1..]);
  }
}
