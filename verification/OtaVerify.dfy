// The digest check that stands between a downloaded image and the boot partition:
// the second half of tab5_ota_apply in main/ota.c.

module OtaVerify {
  import opened CString

  const CHUNK_SIZE: nat := 4096

  /** A streaming hash: a context, what a byte does to it, and the digest it ends in. */
  datatype Hash<!C> = Hash(start: C, absorb: (C, Byte) -> C, finish: C -> seq<Byte>)

  function Update<C>(h: Hash<C>, ctx: C, bytes: seq<Byte>): C {
    if bytes == [] then ctx else h.absorb(Update(h, ctx, bytes[..|bytes| - 1]), bytes[|bytes| - 1])
  }

  /** The digest of a whole image, in one go. */
  function Digest<C>(h: Hash<C>, image: seq<Byte>): seq<Byte> {
    h.finish(Update(h, h.start, image))
  }

  lemma {:induction false} UpdateAppends<C>(h: Hash<C>, ctx: C, a: seq<Byte>, b: seq<Byte>)
    ensures Update(h, ctx, a + b) == Update(h, Update(h, ctx, a), b)
  {
    if b == [] {
      assert a + b == a;
    } else {
      assert (a + b)[..|a + b| - 1] == a + b[..|b| - 1];
      UpdateAppends(h, ctx, a, b[..|b| - 1]);
    }
  }

  // ---------------------------------------------------------------------- hex text

  const HEX_DIGITS: string := "0123456789abcdef"

  function Hex(digest: seq<Byte>): (s: string)
    ensures |s| == 2 * |digest|
  {
    if digest == [] then []
    else Hex(digest[..|digest| - 1]) + [HEX_DIGITS[digest[|digest| - 1] / 16], HEX_DIGITS[digest[|digest| - 1] % 16]]
  }

  function DigitValue(c: char): int {
    var l := Lower(c);
    if '0' <= l <= '9' then l as int - '0' as int else if 'a' <= l <= 'f' then l as int - 'a' as int + 10 else -1
  }

  /** What a hex string of either case denotes. */
  function FromHex(s: string): seq<int> {
    seq(|s| / 2, i requires 0 <= i < |s| / 2 => 16 * DigitValue(s[2 * i]) + DigitValue(s[2 * i + 1]))
  }

  /** The two digits a byte becomes. */
  lemma {:induction false} DigitsOfByte(digest: seq<Byte>, i: nat)
    requires i < |digest|
    ensures Hex(digest)[2 * i] == HEX_DIGITS[digest[i] / 16] && Hex(digest)[2 * i + 1] == HEX_DIGITS[digest[i] % 16]
    decreases |digest|
  {
    hide HEX_DIGITS;
    if i < |digest| - 1 { DigitsOfByte(digest[..|digest| - 1], i); }
  }

  lemma {:induction false} FromHexOfHex(digest: seq<Byte>)
    ensures FromHex(Hex(digest)) == digest
  {
    hide Hex, DigitValue, HEX_DIGITS;
    forall i | 0 <= i < |digest| ensures FromHex(Hex(digest))[i] == digest[i] {
      DigitsOfByte(digest, i);
      DigitOfHex(digest[i] / 16);
      DigitOfHex(digest[i] % 16);
    }
  }

  lemma DigitOfHex(v: nat)
    requires v < 16
    ensures DigitValue(HEX_DIGITS[v]) == v
  {
  }

  lemma DigitValueIff(c: char, v: nat)
    requires v < 16
    ensures DigitValue(c) == v <==> IsHexDigit(c, v)
    ensures DigitValue(c) < 16
  {
  }

  lemma FromHexIgnoresCase(a: string, b: string)
    requires SameIgnoringCase(a, b)
    ensures FromHex(a) == FromHex(b)
  {
    assert |a| == |b|;
    forall i | 0 <= i < |a| ensures DigitValue(a[i]) == DigitValue(b[i]) {
      assert LowerAll(a)[i] == LowerAll(b)[i];
    }
  }

  lemma HexDigitIs(v: nat, c: char)
    requires v < 16
    ensures IsHexDigit(c, v) <==> HEX_DIGITS[v] == c || OtherCase(HEX_DIGITS[v], c)
  {
  }

  /** The i-th pair of digits of the text spells that byte, the higher half first. */
  predicate Spells(text: string, i: nat, b: Byte)
    requires 2 * i + 1 < |text|
  {
    IsHexDigit(text[2 * i], b / 16) && IsHexDigit(text[2 * i + 1], b % 16)
  }

  predicate SamePair(a: string, b: string, i: nat)
    requires 2 * i + 1 < |a| == |b|
  {
    && (a[2 * i] == b[2 * i] || OtherCase(a[2 * i], b[2 * i]))
    && (a[2 * i + 1] == b[2 * i + 1] || OtherCase(a[2 * i + 1], b[2 * i + 1]))
  }

  lemma SpellsIff(digest: seq<Byte>, text: string, i: nat)
    requires i < |digest| && |text| == 2 * |digest|
    ensures Spells(text, i, digest[i]) <==> SamePair(Hex(digest), text, i)
  {
    DigitsOfByte(digest, i);
    HexDigitIs(digest[i] / 16, text[2 * i]);
    HexDigitIs(digest[i] % 16, text[2 * i + 1]);
    hide Hex, HEX_DIGITS, IsHexDigit, OtherCase;
  }

  lemma SameInPairs(a: string, b: string, n: nat)
    requires |a| == |b| == 2 * n
    ensures SameIgnoringCase(a, b) <==> forall i :: 0 <= i < n ==> SamePair(a, b, i)
  {
    SameIgnoringCaseIff(a, b);
    hide OtherCase, SameIgnoringCase;
    if forall i :: 0 <= i < n ==> SamePair(a, b, i) {
      forall j | 0 <= j < |a| ensures a[j] == b[j] || OtherCase(a[j], b[j]) {
        assert SamePair(a, b, j / 2);
      }
    }
  }

  lemma SameLength(a: string, b: string)
    requires SameIgnoringCase(a, b)
    ensures |a| == |b|
  {
    assert |LowerAll(a)| == |a| && |LowerAll(b)| == |b|;
  }

  predicate SpellsOut(text: string, digest: seq<Byte>) {
    |text| == 2 * |digest| && forall i :: 0 <= i < |digest| ==> Spells(text, i, digest[i])
  }

  /** The comparison of texts passes if and only if the expected text spells the digest out, two
      digits a byte, each letter in either case. */
  lemma PassesIff(digest: seq<Byte>, expected: string)
    ensures SameIgnoringCase(Hex(digest), expected) <==> SpellsOut(expected, digest)
  {
    hide Hex, OtherCase, SameIgnoringCase, Spells, SamePair;
    if SameIgnoringCase(Hex(digest), expected) {
      SameLength(Hex(digest), expected);
      SameInPairs(Hex(digest), expected, |digest|);
      forall i | 0 <= i < |digest| ensures Spells(expected, i, digest[i]) { SpellsIff(digest, expected, i); }
    }
    if SpellsOut(expected, digest) {
      forall i | 0 <= i < |digest| ensures SamePair(Hex(digest), expected, i) { SpellsIff(digest, expected, i); }
      SameInPairs(Hex(digest), expected, |digest|);
    }
  }

  // ---------------------------------------------------------------------- the check

  datatype Result = Booted | Failed

  /** After a download that succeeded.  `unreadable` holds the offsets at which reading
      the partition back fails; `finishes` says whether esp_https_ota_finish succeeds. */
  method VerifyAndFinish<C>(
      h: Hash<C>, partition: array<Byte>, imageSize: nat, expected: string,
      unreadable: set<nat>, finishes: bool) returns (r: Result)
    requires imageSize <= partition.Length
    ensures r.Booted? <==>
              && finishes
              && (expected != "" ==>
                    && (forall k {:trigger k * 4096} :: 0 <= k * 4096 < imageSize ==> k * 4096 !in unreadable)
                    && SpellsOut(expected, Digest(h, partition[..imageSize])))
  {
    hide Hex, SameIgnoringCase, SpellsOut;
    if expected != "" {
      var ctx := h.start;
      var offset := 0;
      ghost var chunks := 0;
      while offset < imageSize
        invariant 0 <= offset <= imageSize && 0 <= chunks
        invariant offset == chunks * CHUNK_SIZE || offset == imageSize <= chunks * CHUNK_SIZE
        invariant forall k {:trigger k * CHUNK_SIZE} :: 0 <= k < chunks ==> k * CHUNK_SIZE !in unreadable
        invariant ctx == Update(h, h.start, partition[..offset])
        decreases imageSize - offset
      {
        var toRead := if imageSize - offset < CHUNK_SIZE then imageSize - offset else CHUNK_SIZE;
        if offset in unreadable {
          return Failed;
        }
        UpdateAppends(h, h.start, partition[..offset], partition[offset..offset + toRead]);
        assert partition[..offset] + partition[offset..offset + toRead] == partition[..offset + toRead];
        ctx := Update(h, ctx, partition[offset..offset + toRead]);
        offset := offset + toRead;
        chunks := chunks + 1;
      }
      PassesIff(h.finish(ctx), expected);
      assert partition[..offset] == partition[..imageSize];
      if !SameIgnoringCase(Hex(h.finish(ctx)), expected) {
        return Failed;
      }
    }
    if !finishes { return Failed; }
    return Booted;
  }

  /** An image that passes has exactly the digest asked for, whatever the case of its text. */
  lemma PassingMeansThisDigest<C>(h: Hash<C>, image: seq<Byte>, expected: string)
    requires SameIgnoringCase(Hex(Digest(h, image)), expected)
    ensures FromHex(expected) == Digest(h, image) && |expected| == 2 * |Digest(h, image)|
  {
    FromHexOfHex(Digest(h, image));
    FromHexIgnoresCase(Hex(Digest(h, image)), expected);
    assert |LowerAll(expected)| == |expected|;
  }
}
