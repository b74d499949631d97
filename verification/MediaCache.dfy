// The image cache: main/media_cache.c.  Five fixed buffers; a miss downloads into
// the least recently used one.  Keys are URL hashes, ticks the RTOS clock.

module MediaCache {
  import opened CString

  const SLOTS: nat := 5
  const MAX_W: nat := 660
  const MAX_H: nat := 440
  const SLOT_BYTES: nat := MAX_W * MAX_H * 2
  const DL_BUF_SIZE: nat := 512 * 1024

  type Tick = x: int | 0 <= x < 0x1_0000_0000 witness 0

  /** What the network hands back: nothing, or a status and a body. */
  datatype Download = OpenFailed | Response(status: int, body: seq<Byte>) {
    function Kept(): (bytes: seq<Byte>)
      ensures |bytes| <= SLOT_BYTES
    {
      if OpenFailed? || status != 200 then []
      else if |body| < DL_BUF_SIZE then body else body[..DL_BUF_SIZE]
    }
  }

  /** The position of the first SOF0 or SOF2 marker with room for its fields, or the end. */
  function SofAt(bytes: seq<Byte>, i: nat): (k: nat)
    ensures k + 8 < |bytes| ==> i <= k && IsSof(bytes, k)
    ensures forall j :: i <= j < k && j + 8 < |bytes| ==> !IsSof(bytes, j)
    decreases |bytes| - i
  {
    if i + 8 >= |bytes| then |bytes| else if IsSof(bytes, i) then i else SofAt(bytes, i + 1)
  }

  lemma SofUnrolls(bytes: seq<Byte>, i: nat)
    ensures i + 8 >= |bytes| ==> SofAt(bytes, i) == |bytes|
    ensures i + 8 < |bytes| ==> SofAt(bytes, i) == if IsSof(bytes, i) then i else SofAt(bytes, i + 1)
  {
  }

  predicate IsSof(bytes: seq<Byte>, i: nat)
    requires i + 1 < |bytes|
  {
    bytes[i] == 0xFF && (bytes[i + 1] == 0xC0 || bytes[i + 1] == 0xC2)
  }

  function Word(high: int, low: int): int {
    high * 256 + low
  }

  /** Width and height as the marker gives them; the defaults if either is missing or 0. */
  function Dimensions(bytes: seq<Byte>): (int, int) {
    var k := SofAt(bytes, 0);
    if k + 8 >= |bytes| then (MAX_W, MAX_H)
    else
      var h, w := Word(bytes[k + 5], bytes[k + 6]), Word(bytes[k + 7], bytes[k + 8]);
      if w == 0 || h == 0 then (MAX_W, MAX_H) else (w, h)
  }

  /** Nothing is kept of a response that is not a success, or empty; of any other its first 512 KB. */
  lemma KeptIff(d: Download)
    ensures d.Kept() != [] <==> d.Response? && d.status == 200 && d.body != []
    ensures d.Response? && d.status == 200 ==>
              d.Kept() <= d.body && |d.Kept()| == if |d.body| <= 524288 then |d.body| else 524288
  {
  }

  /** A start-of-frame header: its marker, length and precision, and height and width, high byte first. */
  predicate IsFrame(bytes: seq<Byte>, k: nat, width: nat, height: nat) {
    && k + 8 < |bytes| && bytes[k] == 0xFF && bytes[k + 1] in {0xC0, 0xC2}
    && height == (bytes[k + 5] as int) * 0x100 + bytes[k + 6]
    && width == (bytes[k + 7] as int) * 0x100 + bytes[k + 8]
  }

  /** The dimensions are those of the first header, and 660 by 440 if there is none or it says 0. */
  lemma DimensionsAreTheFirst(bytes: seq<Byte>, k: nat, width: nat, height: nat)
    requires IsFrame(bytes, k, width, height)
    requires forall j :: 0 <= j < k ==> bytes[j] != 0xFF || bytes[j + 1] !in {0xC0, 0xC2}
    ensures Dimensions(bytes) == if width == 0 || height == 0 then (660, 440) else (width, height)
  {
    forall j | 0 <= j < k ensures !IsSof(bytes, j) {}
    assert IsSof(bytes, k);
    hide SofAt, IsSof;
  }

  lemma DimensionsByDefault(bytes: seq<Byte>)
    requires forall j :: 0 <= j < |bytes| - 8 ==> bytes[j] != 0xFF || bytes[j + 1] !in {0xC0, 0xC2}
    ensures Dimensions(bytes) == (660, 440)
  {
    forall j | 0 <= j < |bytes| - 8 ensures !IsSof(bytes, j) {}
    hide SofAt, IsSof;
  }

  // ------------------------------------------------------------------- the slots

  datatype Entry = Entry(hash: Tick, bytes: seq<Byte>, tick: Tick, width: int, height: int)

  predicate IsHit(t: seq<Entry>, k: int, hash: Tick) {
    0 <= k < |t| && t[k].hash == hash && t[k].bytes != []
  }

  /** The slot a download goes to: the first with hash 0, else the first of least tick. */
  predicate IsVictim(t: seq<Entry>, k: int) {
    && 0 <= k < |t|
    && if t[k].hash == 0 then forall j :: 0 <= j < k ==> t[j].hash != 0
       else
         && (forall j :: 0 <= j < |t| ==> t[j].hash != 0 && t[k].tick <= t[j].tick)
         && (forall j :: 0 <= j < k ==> t[k].tick < t[j].tick)
  }

  function NewEntry(hash: Tick, bytes: seq<Byte>, now: Tick): Entry {
    Entry(hash, bytes, now, Dimensions(bytes).0, Dimensions(bytes).1)
  }

  /** One fetch: slot `k` is what it answers from, -1 when it fails. */
  ghost predicate Fetches(t: seq<Entry>, t': seq<Entry>, hash: Tick, now: Tick, d: Download, k: int) {
    if exists j :: IsHit(t, j, hash) then
      IsHit(t, k, hash) && t' == t[k := t[k].(tick := now)] && forall j :: 0 <= j < k ==> !IsHit(t, j, hash)
    else if d.Kept() == [] then k == -1 && t' == t
    else IsVictim(t, k) && t' == t[k := NewEntry(hash, d.Kept(), now)]
  }

  /** The table and the download leave a fetch no choice. */
  lemma FetchIsDetermined(t: seq<Entry>, t1: seq<Entry>, t2: seq<Entry>, hash: Tick, now: Tick, d: Download, k1: int, k2: int)
    requires Fetches(t, t1, hash, now, d, k1) && Fetches(t, t2, hash, now, d, k2)
    ensures k1 == k2 && t1 == t2
  {
  }

  datatype Slot = Slot(hash: Tick, dataLen: nat, tick: Tick, width: int, height: int)

  datatype Descriptor = None | Image(data: array<Byte>, size: nat, width: int, height: int)

  class Cache {
    const slots: array<Slot>
    const buffers: seq<array<Byte>>

    ghost predicate Valid()
      reads slots
    {
      && slots.Length == SLOTS == |buffers|
      && (forall i :: 0 <= i < SLOTS ==> buffers[i].Length == SLOT_BYTES)
      && (forall i, j :: 0 <= i < j < SLOTS ==> buffers[i] != buffers[j])
      && (forall i :: 0 <= i < SLOTS ==> slots[i].dataLen <= SLOT_BYTES)
    }

    ghost function Row(i: int): Entry
      requires Valid() && 0 <= i < SLOTS
      reads slots, buffers
    {
      var s := slots[i];
      Entry(s.hash, buffers[i][..s.dataLen], s.tick, s.width, s.height)
    }

    ghost function Table(): (t: seq<Entry>)
      requires Valid()
      reads slots, buffers
      ensures |t| == SLOTS && forall i :: 0 <= i < SLOTS ==> t[i] == Row(i)
    {
      [Row(0), Row(1), Row(2), Row(3), Row(4)]
    }

    constructor ()
      ensures Valid() && fresh(slots) && slots.Length == |buffers| == 5
      ensures forall b :: b in buffers ==> fresh(b) && b.Length == 660 * 440 * 2
      ensures forall i :: 0 <= i < SLOTS ==> Table()[i] == Entry(0, [], 0, 0, 0)
    {
      slots := new Slot[SLOTS](i => Slot(0, 0, 0, 0, 0));
      var b0 := new Byte[SLOT_BYTES];
      var b1 := new Byte[SLOT_BYTES];
      var b2 := new Byte[SLOT_BYTES];
      var b3 := new Byte[SLOT_BYTES];
      var b4 := new Byte[SLOT_BYTES];
      buffers := [b0, b1, b2, b3, b4];
      new;
      assert forall i :: 0 <= i < SLOTS ==> slots[i] == Slot(0, 0, 0, 0, 0);
      assert Valid();
      forall i | 0 <= i < SLOTS ensures Row(i) == Entry(0, [], 0, 0, 0) {}
    }

    method FindSlot(hash: Tick) returns (k: int)
      requires Valid()
      ensures k == -1 ==> forall j :: !IsHit(Table(), j, hash)
      ensures k != -1 ==> IsHit(Table(), k, hash) && forall j :: 0 <= j < k ==> !IsHit(Table(), j, hash)
    {
      for i := 0 to SLOTS
        invariant forall j :: 0 <= j < i ==> !IsHit(Table(), j, hash)
      {
        if slots[i].hash == hash && slots[i].dataLen > 0 { return i; }
      }
      return -1;
    }

    method FindLruSlot() returns (best: int)
      requires Valid()
      ensures IsVictim(Table(), best)
    {
      best := 0;
      var bestTick := 0xFFFF_FFFF;
      for i := 0 to SLOTS
        invariant 0 <= best < SLOTS && (best < i || best == 0)
        invariant forall j :: 0 <= j < i ==> slots[j].hash != 0 && bestTick <= slots[j].tick
        invariant bestTick <= 0xFFFF_FFFF
        invariant (best == 0 && bestTick == 0xFFFF_FFFF) || (best < i && bestTick == slots[best].tick)
        invariant forall j :: 0 <= j < best ==> bestTick < slots[j].tick
      {
        if slots[i].hash == 0 {
          return i;
        }
        if slots[i].tick < bestTick {
          bestTick, best := slots[i].tick, i;
        }
      }
    }

    method ParseDimensions(k: nat) returns (w: int, h: int)
      requires Valid() && k < SLOTS
      ensures (w, h) == Dimensions(buffers[k][..slots[k].dataLen])
    {
      w, h := 0, 0;
      var total := slots[k].dataLen;
      ghost var bytes := buffers[k][..total];
      var i := 0;
      hide SofAt;
      while i + 8 < total
        invariant w == h == 0 && SofAt(bytes, 0) == SofAt(bytes, i)
        decreases total - i
      {
        SofUnrolls(bytes, i);
        if buffers[k][i] == 0xFF && (buffers[k][i + 1] == 0xC0 || buffers[k][i + 1] == 0xC2) {
          h := Word(buffers[k][i + 5], buffers[k][i + 6]);
          w := Word(buffers[k][i + 7], buffers[k][i + 8]);
          break;
        }
        i := i + 1;
      }
      SofUnrolls(bytes, i);
      if w == 0 || h == 0 {
        w, h := MAX_W, MAX_H;
      }
    }

    method CopyIn(idx: nat, bytes: seq<Byte>)
      requires Valid() && idx < SLOTS && |bytes| <= SLOT_BYTES
      modifies buffers[idx]
      ensures buffers[idx][..|bytes|] == bytes
    {
      forall i | 0 <= i < |bytes| {
        buffers[idx][i] := bytes[i];
      }
    }

    /** The copy into a slot and the fields that go with it. */
    method Store(idx: nat, hash: Tick, bytes: seq<Byte>, now: Tick) returns (w: int, h: int)
      requires Valid() && idx < SLOTS && |bytes| <= SLOT_BYTES
      modifies slots, buffers[idx]
      ensures Valid() && Table() == old(Table())[idx := NewEntry(hash, bytes, now)]
      ensures slots[idx].dataLen == |bytes| && (w, h) == Dimensions(bytes)
    {
      hide Dimensions;
      ghost var before := Table();
      CopyIn(idx, bytes);
      slots[idx] := slots[idx].(hash := hash, dataLen := |bytes|, tick := now);
      w, h := ParseDimensions(idx);
      slots[idx] := slots[idx].(width := w, height := h);
      assert forall i :: 0 <= i < SLOTS && i != idx ==> buffers[i][..] == old(buffers[i][..]);
      OtherRows(before, idx);
    }

    lemma OtherRows(before: seq<Entry>, idx: nat)
      requires Valid() && idx < SLOTS == |before|
      requires forall i :: 0 <= i < SLOTS && i != idx ==> Row(i) == before[i]
      ensures Table() == before[idx := Row(idx)]
    {
    }

    method Fetch(hash: Tick, now: Tick, d: Download) returns (image: Descriptor, ghost k: int)
      requires Valid()
      modifies slots, buffers
      ensures Valid() && Fetches(old(Table()), Table(), hash, now, d, k)
      ensures image.None? <==> k == -1
      ensures image.Image? ==>
                && image.data == buffers[k]
                && image.size == slots[k].dataLen
                && Table()[k] == Entry(hash, image.data[..image.size], now, image.width, image.height)
    {
      var idx := FindSlot(hash);
      ghost var before := Table();
      if idx >= 0 {
        assert IsHit(before, idx, hash);
        slots[idx] := slots[idx].(tick := now);
        OtherRows(before, idx);
        return Image(buffers[idx], slots[idx].dataLen, slots[idx].width, slots[idx].height), idx;
      }
      if d.OpenFailed? || d.status != 200 { return None, -1; }
      var total := if |d.body| < DL_BUF_SIZE then |d.body| else DL_BUF_SIZE;
      if total == 0 { return None, -1; }
      if total > SLOT_BYTES { total := SLOT_BYTES; }
      assert d.body[..total] == d.Kept();
      idx := FindLruSlot();
      var w, h := Store(idx, hash, d.body[..total], now);
      return Image(buffers[idx], total, w, h), idx;
    }

    method Clear()
      requires Valid()
      modifies slots
      ensures Valid()
      ensures forall i :: 0 <= i < SLOTS ==>
                Table()[i] == old(Table()[i]).(hash := 0, bytes := [], tick := 0)
    {
      for i := 0 to SLOTS
        invariant Valid()
        invariant forall j :: 0 <= j < SLOTS ==>
                    slots[j] == if j < i then old(slots[j]).(hash := 0, dataLen := 0, tick := 0) else old(slots[j])
      {
        slots[i] := slots[i].(hash := 0, dataLen := 0, tick := 0);
      }
    }
  }
}
