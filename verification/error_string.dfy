/** `getErrorString`: renders a status code into a caller-supplied C
    character buffer. The buffer is a `seq<char>` whose length is its
    capacity; the text a C caller reads back is the prefix before the first
    NUL (`CString`).

    The routine first clears `sizeof(errorString)` bytes, which for an array
    parameter is the size of a pointer, not of the buffer; that size is the
    parameter `pointerSize`. It then copies the message with a 30-character
    `strncpy`, which writes all of the first 30 bytes.
 */
module ErrorString {
  import opened E2Bus

  /** The `strncpy` bound used for every message. */
  const Bound: nat := 30

  /** The message for each status code, with the source's spelling. */
  function Message(status: Status): (m: string)
    ensures |m| < Bound
    ensures '\0' !in m
    ensures 0 < |m|
    ensures m == "unknown error" <==> status.Other?
  {
    match status
    case Ok => "Success"
    case ErrNak => "Not acknowledge error"
    case ErrCksum => "Checksum error"
    case ErrMeas => "Measurment error"
    case Other(_) => "unknown error"
  }

  /** Distinct named codes get distinct messages, and every code outside the
      four named ones shares the one catch-all message. */
  lemma MessageSeparatesCodes(a: Status, b: Status)
    ensures Message(a) == Message(b) <==> a == b || (a.Other? && b.Other?)
  {
  }

  /** The C string stored in `buf`: everything before the first NUL, or the
      whole buffer when it holds no NUL. */
  function CString(buf: seq<char>): (s: string)
    ensures |s| <= |buf| && s == buf[..|s|]
    ensures '\0' !in s
    ensures |s| < |buf| ==> buf[|s|] == '\0'
  {
    if |buf| == 0 || buf[0] == '\0' then []
    else [buf[0]] + CString(buf[1..])
  }

  /** A buffer holding `m` followed by a NUL reads back as `m`. */
  lemma CStringOfTerminated(buf: seq<char>, m: string)
    requires |m| < |buf| && buf[..|m|] == m && buf[|m|] == '\0'
    requires '\0' !in m
    ensures CString(buf) == m
  {
  }

  /** `memset(buf, '\0', n)`: clears the first `n` bytes and nothing else. */
  method Memset(buf: seq<char>, n: nat) returns (r: seq<char>)
    requires n <= |buf|
    ensures |r| == |buf|
    ensures forall i :: 0 <= i < n ==> r[i] == '\0'
    ensures r[n..] == buf[n..]
  {
    r := buf;
    var i := 0;
    while i < n
      invariant i <= n
      invariant |r| == |buf|
      invariant forall k :: 0 <= k < i ==> r[k] == '\0'
      invariant forall k :: i <= k < |r| ==> r[k] == buf[k]
    {
      r := r[i := '\0'];
      i := i + 1;
    }
  }

  /** `strncpy(dst, src, n)` for a source string without NULs: the first `n`
      bytes become `src` cut or padded with NULs to length `n`; the rest of
      the buffer is untouched. */
  method StrNCpy(dst: seq<char>, src: string, n: nat) returns (r: seq<char>)
    requires n <= |dst|
    requires '\0' !in src
    ensures |r| == |dst|
    ensures forall i :: 0 <= i < n ==> r[i] == (if i < |src| then src[i] else '\0')
    ensures r[n..] == dst[n..]
  {
    r := dst;
    var i := 0;
    while i < n
      invariant i <= n
      invariant |r| == |dst|
      invariant forall k :: 0 <= k < i ==> r[k] == (if k < |src| then src[k] else '\0')
      invariant forall k :: i <= k < |r| ==> r[k] == dst[k]
    {
      r := r[i := if i < |src| then src[i] else '\0'];
      i := i + 1;
    }
  }

  /** Renders `status` into `buf`. The caller's buffer must hold the 30
      bytes `strncpy` writes and the pointer-size bytes `memset` clears.
      The message reads back exactly, NUL-padded to 30 bytes; beyond byte
      30 only the bytes the `memset` reached are cleared, so the result's
      first 30 bytes never depend on the pointer size or the old contents. */
  method GetErrorString(status: Status, buf: seq<char>, pointerSize: nat) returns (r: seq<char>)
    requires Bound <= |buf|
    requires pointerSize <= |buf|
    ensures |r| == |buf|
    ensures CString(r) == Message(status)
    ensures r[..|Message(status)|] == Message(status)
    ensures forall i :: |Message(status)| <= i < Bound ==> r[i] == '\0'
    ensures forall i :: Bound <= i < |r| ==> r[i] == (if i < pointerSize then '\0' else buf[i])
  {
    var cleared := Memset(buf, pointerSize);
    var m := Message(status);
    r := StrNCpy(cleared, m, Bound);
    assert r[..|m|] == m;
    CStringOfTerminated(r, m);
    forall i | Bound <= i < |r|
      ensures r[i] == (if i < pointerSize then '\0' else buf[i])
    {
      assert r[i] == r[Bound..][i - Bound] == cleared[Bound..][i - Bound];
      if pointerSize <= i {
        assert cleared[i] == cleared[pointerSize..][i - pointerSize] == buf[pointerSize..][i - pointerSize];
      }
    }
  }
}
