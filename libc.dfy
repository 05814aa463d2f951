/**
 * The parts of the C library the handlers rely on, in the C locale:
 * character classes (isalpha, isspace), NUL-terminated strings (strlen,
 * strncpy) and the bounded formatted write of snprintf.
 */
module LibC {
  import opened Coap

  /** isalpha in the C locale: the ASCII letters only. */
  predicate IsAlpha(c: byte)
    ensures IsAlpha(c) ==> 0 < c < 128 && !('0' as byte <= c <= '9' as byte)
  {
    'A' as byte <= c <= 'Z' as byte || 'a' as byte <= c <= 'z' as byte
  }

  /** isspace in the C locale: space, tab, newline, vertical tab, form feed, carriage return. */
  predicate IsSpace(c: byte)
    ensures IsSpace(c) ==> 0 < c < 128 && !IsAlpha(c)
  {
    c == ' ' as byte || '\t' as byte <= c <= '\r' as byte
  }

  /** The bytes of an ASCII string literal. */
  function Ascii(s: string): (r: seq<byte>)
    requires forall i :: 0 <= i < |s| ==> s[i] as int < 128
    ensures |r| == |s|
    ensures forall i :: 0 <= i < |s| ==> r[i] as int == s[i] as int
  {
    seq(|s|, i requires 0 <= i < |s| => s[i] as int as byte)
  }

  /** The length strlen reports: the index of the first NUL byte, or |s| when there is none. */
  function CLen(s: seq<byte>): (n: nat)
    ensures n <= |s|
    ensures forall i :: 0 <= i < n ==> s[i] != 0
    ensures n < |s| ==> s[n] == 0
  {
    if s == [] || s[0] == 0 then 0 else 1 + CLen(s[1..])
  }

  /** The C string a buffer holds: its bytes before the first NUL. */
  function CStr(s: seq<byte>): seq<byte>
  {
    s[..CLen(s)]
  }

  /** The buffer holds a NUL byte, so strlen stays inside it. */
  predicate Terminated(s: seq<byte>)
  {
    CLen(s) < |s|
  }

  /** A NUL at index k with none before it fixes the string length at k. */
  lemma CLenAt(s: seq<byte>, k: nat)
    requires k < |s| && s[k] == 0
    requires forall i :: 0 <= i < k ==> s[i] != 0
    ensures CLen(s) == k && CStr(s) == s[..k]
  {
  }

  /** strlen: counts the bytes before the first NUL. */
  method Strlen(a: array<byte>) returns (n: nat)
    requires Terminated(a[..])
    ensures n < a.Length && a[n] == 0
    ensures forall i :: 0 <= i < n ==> a[i] != 0
  {
    n := 0;
    while a[n] != 0
      invariant n <= CLen(a[..])
      invariant forall i :: 0 <= i < n ==> a[i] != 0
      decreases CLen(a[..]) - n
    {
      n := n + 1;
    }
  }

  /**
   * The buffer strncpy(dst, src, n) leaves behind: each of the first n bytes is
   * the byte of src's string at that index, or NUL past its end; the bytes from
   * index n on keep their old values.
   */
  function StrncpyResult(dst: seq<byte>, src: seq<byte>, n: nat): (r: seq<byte>)
    requires n <= |dst|
    ensures |r| == |dst|
    ensures r[n..] == dst[n..]
    ensures CLen(src) < n ==> CStr(r) == CStr(src)
    ensures n <= CLen(src) ==> r[..n] == src[..n] && 0 !in r[..n]
  {
    var r := seq(|dst|, i requires 0 <= i < |dst| =>
      if i < n then (if i < CLen(src) then src[i] else 0) else dst[i]);
    assert CLen(src) < n ==> CLen(r) == CLen(src) by {
      if CLen(src) < n {
        CLenAt(r, CLen(src));
      }
    }
    r
  }

  /** strncpy depends on src only through the string it holds. */
  lemma StrncpySameString(dst: seq<byte>, src1: seq<byte>, src2: seq<byte>, n: nat)
    requires n <= |dst|
    requires CStr(src1) == CStr(src2)
    ensures StrncpyResult(dst, src1, n) == StrncpyResult(dst, src2, n)
  {
    var r1, r2 := StrncpyResult(dst, src1, n), StrncpyResult(dst, src2, n);
    assert CLen(src1) == |CStr(src1)| == |CStr(src2)| == CLen(src2);
    forall i | 0 <= i < |dst| ensures r1[i] == r2[i] {
      if i < n && i < CLen(src1) {
        assert src1[i] == CStr(src1)[i] == CStr(src2)[i] == src2[i];
      }
    }
  }

  /**
   * strncpy: copies src's string into the first n bytes of dst and pads with
   * NUL up to n; it reads src only up to its terminator or the n-th byte.
   */
  method Strncpy(dst: array<byte>, src: array<byte>, n: nat)
    requires n <= dst.Length
    requires n <= src.Length || Terminated(src[..])
    requires dst != src
    modifies dst
    ensures dst[..] == StrncpyResult(old(dst[..]), src[..], n)
  {
    ghost var s := src[..];
    var i := 0;
    while i < n && src[i] != 0
      invariant i <= n && i <= CLen(s)
      invariant forall k :: 0 <= k < i ==> dst[k] == s[k]
      invariant forall k :: i <= k < dst.Length ==> dst[k] == old(dst[k])
    {
      dst[i] := src[i];
      i := i + 1;
    }
    assert i < n ==> i == CLen(s);
    while i < n
      invariant i <= n
      invariant forall k :: 0 <= k < i ==> dst[k] == if k < CLen(s) then s[k] else 0
      invariant forall k :: i <= k < dst.Length ==> dst[k] == old(dst[k])
    {
      dst[i] := 0;
      i := i + 1;
    }
  }

  /**
   * snprintf(buf, buf.Length, ...) of an already formatted text: writes as much
   * of it as fits before a NUL and returns the length of the full text.
   */
  method Snprintf(buf: array<byte>, text: seq<byte>) returns (full: nat)
    requires buf.Length >= 1
    modifies buf
    ensures full == |text|
    ensures var w := if |text| < buf.Length then |text| else buf.Length - 1;
      buf[..w] == text[..w] && buf[w] == 0 &&
      forall k :: w < k < buf.Length ==> buf[k] == old(buf[k])
  {
    var w := if |text| < buf.Length then |text| else buf.Length - 1;
    var i := 0;
    while i < w
      invariant 0 <= i <= w
      invariant forall k :: 0 <= k < i ==> buf[k] == text[k]
      invariant forall k :: i <= k < buf.Length ==> buf[k] == old(buf[k])
    {
      buf[i] := text[i];
      i := i + 1;
    }
    buf[w] := 0;
    full := |text|;
  }
}
