// Bytes, NUL-terminated text and its letter case, as the C library has them.

module CString {

  type Byte = x: int | 0 <= x < 256 witness 0

  /** The text of a buffer: what stands before its first NUL. */
  function Text<T(==)>(buf: seq<T>, nul: T): (s: seq<T>)
    requires nul in buf
    ensures |s| < |buf| && s == buf[..|s|] && buf[|s|] == nul && nul !in s
  {
    if buf[0] == nul then [] else [buf[0]] + Text(buf[1..], nul)
  }

  lemma TextIs<T>(buf: seq<T>, nul: T, r: seq<T>)
    requires |r| < |buf| && r <= buf && buf[|r|] == nul && nul !in r
    ensures nul in buf && Text(buf, nul) == r
  {
    var s := Text(buf, nul);
    forall k | 0 <= k < |r| ensures buf[k] != nul { assert r[k] in r; }
    forall k | 0 <= k < |s| ensures buf[k] != nul { assert s[k] in s; }
  }

  /** strlen, and the same on bytes. */
  method StrLen<T(==)>(input: array<T>, nul: T) returns (n: nat)
    requires nul in input[..]
    ensures n == |Text(input[..], nul)| && Text(input[..], nul) == input[..n] && n < input.Length
  {
    ghost var text := Text(input[..], nul);
    n := 0;
    while input[n] != nul
      invariant n <= |text| && nul !in input[..n]
      decreases |text| - n
    {
      n := n + 1;
    }
  }

  /** tolower, in the C locale. */
  function Lower(c: char): char {
    if 'A' <= c <= 'Z' then (c as int + 32) as char else c
  }

  function LowerAll(s: string): (r: string)
    ensures |r| == |s| && forall i :: 0 <= i < |s| ==> r[i] == Lower(s[i])
  {
    seq(|s|, i requires 0 <= i < |s| => Lower(s[i]))
  }

  /** strcasecmp finds no difference. */
  predicate SameIgnoringCase(a: string, b: string) {
    LowerAll(a) == LowerAll(b)
  }

  /** The same letter, one small and one capital. */
  predicate OtherCase(a: char, b: char) {
    || ('A' <= a <= 'Z' && b as int == a as int - 'A' as int + 'a' as int)
    || ('A' <= b <= 'Z' && a as int == b as int - 'A' as int + 'a' as int)
  }

  lemma LowerAgrees(a: char, b: char)
    ensures Lower(a) == Lower(b) <==> a == b || OtherCase(a, b)
  {
  }

  /** Texts that differ in case alone: character by character the same, or the same letter. */
  lemma SameIgnoringCaseIff(a: string, b: string)
    ensures SameIgnoringCase(a, b) <==>
              |a| == |b| && forall i :: 0 <= i < |a| ==> a[i] == b[i] || OtherCase(a[i], b[i])
  {
    forall i | 0 <= i < |a| && i < |b| ensures LowerAll(a)[i] == LowerAll(b)[i] <==> a[i] == b[i] || OtherCase(a[i], b[i]) {
      LowerAgrees(a[i], b[i]);
    }
    assert |a| == |b| && (forall i :: 0 <= i < |a| ==> LowerAll(a)[i] == LowerAll(b)[i]) ==> LowerAll(a) == LowerAll(b);
    hide Lower, OtherCase;
  }

  /** The character is the digit of that value, a letter being small or capital. */
  predicate IsHexDigit(c: char, v: int) {
    if 0 <= v < 10 then c as int == '0' as int + v
    else c as int == 'a' as int + v - 10 || c as int == 'A' as int + v - 10
  }
}
