/** C strings held in character buffers. */
module CStrings {

  const NUL: char := '\0'

  /** The C string a buffer holds: its characters before the first NUL, or
      the whole buffer when it has none. */
  function CStr(buf: seq<char>): (s: string)
    ensures NUL !in s
    ensures s <= buf
    ensures |s| < |buf| ==> buf[|s|] == NUL
  {
    if |buf| == 0 || buf[0] == NUL then [] else [buf[0]] + CStr(buf[1..])
  }

  /** A NUL-free prefix passes through unchanged. */
  lemma {:induction false} CStrAppend(a: string, b: seq<char>)
    requires NUL !in a
    ensures CStr(a + b) == a + CStr(b)
  {
    if |a| > 0 {
      assert (a + b)[1..] == a[1..] + b;
      CStrAppend(a[1..], b);
    } else {
      assert a + b == b;
    }
  }

  /** An extra NUL after the buffer changes nothing: the C string ends at the
      buffer's own first NUL, or at the added one. */
  lemma {:induction false} CStrTerminated(b: seq<char>)
    ensures CStr(b + [NUL]) == CStr(b)
  {
    if |b| > 0 && b[0] != NUL {
      assert (b + [NUL])[1..] == b[1..] + [NUL];
      CStrTerminated(b[1..]);
    }
  }
}
