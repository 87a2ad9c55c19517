/** The C library string routines that both programs lean on, over
    NUL-terminated character data held in sequences. */
module CLib {

  /** BUFFER_LEN: the size of every character buffer in client and server. */
  const BufferLen: nat := 256

  /** A C string: the characters before its terminating NUL. */
  type CStr = s: seq<char> | '\0' !in s witness []

  function Min(a: nat, b: nat): nat
  {
    if a <= b then a else b
  }

  /** The index of the first NUL in `buf`, or |buf| when it holds none. */
  function NulIndex(buf: seq<char>): (k: nat)
    ensures k <= |buf| && '\0' !in buf[..k]
    ensures k < |buf| ==> buf[k] == '\0'
  {
    if buf == [] || buf[0] == '\0' then 0
    else
      var k := NulIndex(buf[1..]);
      assert buf[..k + 1] == [buf[0]] + buf[1..][..k];
      k + 1
  }

  /** The C string stored at the start of `buf`: everything before its first NUL
      (all of `buf` when it holds none). Its length is what strlen reports. */
  function CString(buf: seq<char>): (r: CStr)
    ensures r <= buf
    ensures |r| < |buf| ==> buf[|r|] == '\0'
    ensures '\0' !in buf ==> r == buf
  {
    buf[..NulIndex(buf)]
  }

  /** Whatever follows a NUL is invisible to the C string functions. */
  lemma {:induction false} CStringStopsAtNul(t: seq<char>, u: seq<char>)
    requires u != [] && u[0] == '\0'
    ensures CString(t + u) == CString(t)
  {
    if t == [] {
      assert (t + u)[0] == '\0';
    } else if t[0] == '\0' {
      assert (t + u)[0] == '\0';
    } else {
      assert (t + u)[1..] == t[1..] + u;
      CStringStopsAtNul(t[1..], u);
      assert NulIndex(t + u) == NulIndex(t[1..] + u) + 1;
    }
  }

  /** The character the C code reads at index `i` of `s`: the NUL past its end. */
  function At(s: CStr, i: nat): char
  {
    if i < |s| then s[i] else '\0'
  }

  /** strcmp: the difference of the first pair of characters that differ,
      0 when the strings agree up to and including their terminators. */
  function Strcmp(a: CStr, b: CStr): (r: int)
    ensures r == 0 <==> a == b
  {
    if At(a, 0) != At(b, 0) || At(a, 0) == '\0' then At(a, 0) as int - At(b, 0) as int
    else
      var r := Strcmp(a[1..], b[1..]);
      assert a == [a[0]] + a[1..] && b == [b[0]] + b[1..];
      r
  }

  /** strncmp: as strcmp, but looking at no more than the first `n` characters. */
  function Strncmp(a: CStr, b: CStr, n: nat): (r: int)
    ensures r == 0 <==> a[..Min(n, |a|)] == b[..Min(n, |b|)]
  {
    if n == 0 then 0
    else if At(a, 0) != At(b, 0) || At(a, 0) == '\0' then
      assert a != [] ==> a[..Min(n, |a|)][0] == a[0];
      assert b != [] ==> b[..Min(n, |b|)][0] == b[0];
      At(a, 0) as int - At(b, 0) as int
    else
      var r := Strncmp(a[1..], b[1..], n - 1);
      assert a[..Min(n, |a|)] == [a[0]] + a[1..][..Min(n - 1, |a| - 1)];
      assert b[..Min(n, |b|)] == [b[0]] + b[1..][..Min(n - 1, |b| - 1)];
      r
  }

  /** bzero: every character of the buffer becomes NUL. */
  method Bzero(data: array<char>)
    modifies data
    ensures forall i :: 0 <= i < data.Length ==> data[i] == '\0'
  {
    forall i | 0 <= i < data.Length {
      data[i] := '\0';
    }
  }
}
