// The two in-place percent-decoders: url_pct_decode_inplace in
// main/debug_server_chat.c and url_decode_inplace in main/debug_server_tinkeron.c.

module UrlDecode {
  import opened CString

  /** The value of a hex digit, -1 for any other character. */
  function HexValue(c: char): (v: int)
    ensures -1 <= v < 16
  {
    if '0' <= c <= '9' then c as int - '0' as int
    else if 'a' <= c <= 'f' then c as int - 'a' as int + 10
    else if 'A' <= c <= 'F' then c as int - 'A' as int + 10
    else -1
  }

  /** %XX with two hex digits at the head of s. */
  predicate IsEscape(s: string) {
    |s| >= 3 && s[0] == '%' && HexValue(s[1]) >= 0 && HexValue(s[2]) >= 0
  }

  /** Percent-decoding as section 2.1 of RFC 3986 has it, and `+` for a space. */
  function Decode(s: string): (r: string)
    ensures |r| <= |s|
    decreases |s|
  {
    if s == [] then []
    else if IsEscape(s) then [(16 * HexValue(s[1]) + HexValue(s[2])) as char] + Decode(s[3..])
    else [if s[0] == '+' then ' ' else s[0]] + Decode(s[1..])
  }

  // ------------------------------------------------------------------ the two loops

  /** w characters of the result are in the buffer, and from r on it is still the text. */
  ghost predicate Decoded(buf: seq<char>, all: string, t: string, w: nat, r: nat) {
    && w <= r <= |t| < |buf| && (forall k :: r <= k < |t| ==> buf[k] == t[k]) && buf[|t|] == '\0'
    && all == buf[..w] + Decode(t[r..])
  }

  lemma DecodeStarts(buf: seq<char>)
    requires '\0' in buf
    ensures Decoded(buf, Decode(Text(buf, '\0')), Text(buf, '\0'), 0, 0)
  {
    assert Text(buf, '\0')[0..] == Text(buf, '\0');
  }

  lemma DecodedBounds(buf: seq<char>, all: string, t: string, w: nat, r: nat)
    requires Decoded(buf, all, t, w, r)
    ensures w <= r <= |t| < |buf|
  {
  }

  lemma DecodeEnds(buf: seq<char>, all: string, t: string, w: nat)
    requires Decoded(buf, all, t, w, |t|)
    ensures w <= |t| < |buf| && buf[..w] == all
  {
  }

  /** What the loops see of the text: the NUL ends it, and nothing else does. */
  lemma DecodeReads(buf: seq<char>, all: string, t: string, w: nat, r: nat)
    requires Decoded(buf, all, t, w, r) && '\0' !in t
    ensures w <= r <= |t| < |buf|
    ensures buf[r] == '\0' <==> r == |t|
    ensures r < |t| ==> t[r..][0] == buf[r]
    ensures r + 1 < |buf| && r < |t| ==> (buf[r + 1] == '\0' <==> r + 1 == |t|)
    ensures r + 2 < |buf| && r + 1 < |t| ==> (buf[r + 2] == '\0' <==> r + 2 == |t|)
    ensures r + 2 < |t| ==> |t[r..]| >= 3 && t[r..][1] == buf[r + 1] && t[r..][2] == buf[r + 2]
    ensures r + 2 >= |t| ==> !IsEscape(t[r..])
  {
    assert r < |t| ==> t[r] in t;
    assert r + 1 < |t| ==> t[r + 1] in t;
    assert r + 2 < |t| ==> t[r + 2] in t;
  }

  /** One round writes one character and moves on by one or by three. */
  lemma DecodeRound(buf: seq<char>, all: string, t: string, w: nat, r: nat)
    requires Decoded(buf, all, t, w, r) && r < |t|
    ensures IsEscape(t[r..]) ==>
              Decoded(buf[w := (16 * HexValue(t[r..][1]) + HexValue(t[r..][2])) as char], all, t, w + 1, r + 3)
    ensures !IsEscape(t[r..]) ==>
              Decoded(buf[w := if t[r] == '+' then ' ' else t[r]], all, t, w + 1, r + 1)
  {
    var rest := t[r..];
    assert rest[1..] == t[r + 1..];
    if IsEscape(rest) {
      assert rest[3..] == t[r + 3..];
      var c := (16 * HexValue(rest[1]) + HexValue(rest[2])) as char;
      assert buf[w := c][..w + 1] == buf[..w] + [c];
    } else {
      var c := if t[r] == '+' then ' ' else t[r];
      assert buf[w := c][..w + 1] == buf[..w] + [c];
    }
  }

  /** url_pct_decode_inplace. */
  method UrlPctDecodeInplace(s: array<char>)
    requires '\0' in s[..]
    modifies s
    ensures var r := Decode(Text(old(s[..]), '\0')); |r| < s.Length && s[..|r|] == r && s[|r|] == '\0'
  {
    ghost var t := Text(s[..], '\0');
    ghost var all := Decode(t);
    DecodeStarts(s[..]);
    hide Decoded, Decode, Text;
    var r, w := 0, 0;
    DecodeReads(s[..], all, t, w, r);
    while s[r] != '\0'
      invariant w <= r <= |t| < s.Length && Decoded(s[..], all, t, w, r)
      decreases |t| - r
    {
      DecodeReads(s[..], all, t, w, r);
      DecodeRound(s[..], all, t, w, r);
      if s[r] == '%' && s[r + 1] != '\0' && s[r + 2] != '\0' {
        var hv, lv := HexValue(s[r + 1]), HexValue(s[r + 2]);
        if hv >= 0 && lv >= 0 {
          s[w] := (16 * hv + lv) as char;
          w, r := w + 1, r + 3;
          continue;
        }
      }
      if s[r] == '+' {
        s[w] := ' ';
        w, r := w + 1, r + 1;
        continue;
      }
      s[w] := s[r];
      w, r := w + 1, r + 1;
    }
    DecodeReads(s[..], all, t, w, r);
    DecodeEnds(s[..], all, t, w);
    s[w] := '\0';
  }

  /** url_decode_inplace; a missing string is left alone. */
  method UrlDecodeInplace(s: array?<char>)
    requires s != null ==> '\0' in s[..]
    modifies if s == null then {} else {s}
    ensures s != null ==> var r := Decode(Text(old(s[..]), '\0')); |r| < s.Length && s[..|r|] == r && s[|r|] == '\0'
  {
    if s != null { UrlDecodeLoop(s); }
  }

  /** The body of the loop; the character read last is at position r'. */
  method UrlDecodeChar(s: array<char>, w: nat, r: nat, ghost all: string, ghost t: string) returns (r': nat)
    requires '\0' !in t && Decoded(s[..], all, t, w, r) && w <= r < |t| < s.Length && s[r] != '\0'
    modifies s
    ensures r <= r' && Decoded(s[..], all, t, w + 1, r' + 1)
  {
    DecodeReads(s[..], all, t, w, r);
    DecodeRound(s[..], all, t, w, r);
    hide Decoded, Decode;
    r' := r;
    if s[r] == '+' {
      s[w] := ' ';
    } else if s[r] == '%' && s[r + 1] != '\0' && s[r + 2] != '\0' {
      var hv, lv := HexValue(s[r + 1]), HexValue(s[r + 2]);
      if hv >= 0 && lv >= 0 {
        s[w] := (16 * hv + lv) as char;
        r' := r + 2;
      } else {
        s[w] := s[r];
      }
    } else {
      s[w] := s[r];
    }
  }

  method UrlDecodeLoop(s: array<char>)
    requires '\0' in s[..]
    modifies s
    ensures var r := Decode(Text(old(s[..]), '\0')); |r| < s.Length && s[..|r|] == r && s[|r|] == '\0'
  {
    ghost var t := Text(s[..], '\0');
    ghost var all := Decode(t);
    DecodeStarts(s[..]);
    hide Decoded, Decode, Text;
    var w, r := 0, 0;
    DecodeReads(s[..], all, t, w, r);
    while s[r] != '\0'
      invariant w <= r <= |t| < s.Length && Decoded(s[..], all, t, w, r)
      decreases |t| - r
    {
      DecodeReads(s[..], all, t, w, r);
      r := UrlDecodeChar(s, w, r, all, t);
      w, r := w + 1, r + 1;
      DecodedBounds(s[..], all, t, w, r);
    }
    DecodeReads(s[..], all, t, w, r);
    DecodeEnds(s[..], all, t, w);
    s[w] := '\0';
  }

  // ----------------------------------------------------------------------- inverting

  /** What an encoder may write for c: itself unless that would be read otherwise, `+` for
      a space, or % and two hex digits of either case. */
  predicate Encodes(e: string, c: char) {
    || (e == [c] && c != '%' && c != '+')
    || (e == "+" && c == ' ')
    || (|e| == 3 && e[0] == '%' && c as int < 256 && IsHexDigit(e[1], c as int / 16) && IsHexDigit(e[2], c as int % 16))
  }

  /** Digits are read in either case, and nothing else is a digit. */
  lemma HexValueIff(c: char, v: nat)
    requires v < 16
    ensures HexValue(c) == v <==> IsHexDigit(c, v)
  {
  }

  lemma EscapeIs(e: string, c: char)
    requires |e| == 3 && e[0] == '%' && c as int < 256
    ensures IsEscape(e) && 16 * HexValue(e[1]) + HexValue(e[2]) == c as int <==>
              IsHexDigit(e[1], c as int / 16) && IsHexDigit(e[2], c as int % 16)
  {
    HexValueIff(e[1], c as int / 16);
    HexValueIff(e[2], c as int % 16);
    hide HexValue, IsHexDigit;
  }

  function Join(parts: seq<string>): string {
    if parts == [] then [] else parts[0] + Join(parts[1..])
  }

  /** Every encoding of a string decodes to it, whichever characters were escaped. */
  lemma {:induction false} DecodeInvertsEncoding(parts: seq<string>, s: string)
    requires |parts| == |s| && forall i :: 0 <= i < |s| ==> Encodes(parts[i], s[i])
    ensures Decode(Join(parts)) == s
  {
    if s != [] {
      var e, rest := parts[0], Join(parts[1..]);
      DecodeInvertsEncoding(parts[1..], s[1..]);
      assert Encodes(e, s[0]);
      assert s == [s[0]] + s[1..];
      if |e| == 3 {
        EscapeIs(e, s[0]);
        assert (e + rest)[3..] == rest;
      } else {
        assert (e + rest)[1..] == rest;
        assert (e + rest)[0] == e[0];
      }
    }
  }

  function HexDigit(v: nat): char
    requires v < 16
  {
    "0123456789ABCDEF"[v]
  }

  type Octet = c: char | c as int < 256

  function Escape(c: Octet): string {
    ['%', HexDigit(c as int / 16), HexDigit(c as int % 16)]
  }

  lemma EscapeEncodes(c: Octet)
    ensures Encodes(Escape(c), c)
  {
    HexDigitIs(c as int / 16);
    HexDigitIs(c as int % 16);
  }

  /** So every string of bytes is the decoding of something, of its full escape for one. */
  lemma DecodeIsOnto(s: seq<Octet>)
    ensures Decode(Join(seq(|s|, i requires 0 <= i < |s| => Escape(s[i])))) == s
  {
    var parts := seq(|s|, i requires 0 <= i < |s| => Escape(s[i]));
    forall i | 0 <= i < |s| ensures Encodes(parts[i], s[i]) {
      EscapeEncodes(s[i]);
    }
    DecodeInvertsEncoding(parts, s);
  }

  lemma HexDigitIs(v: nat)
    requires v < 16
    ensures IsHexDigit(HexDigit(v), v)
  {
  }
}
