/**
  The WAV writer of the audio page: a 44-byte RIFF/WAVE header for 16-bit
  PCM, written field by field into a byte buffer through a little-endian
  view, followed by the interleaved sample area.

  The header layout is the canonical one of the WAVE form in the Microsoft
  and IBM Multimedia Programming Interface and Data Specifications 1.0: the
  RIFF chunk descriptor (bytes 0-11), the `fmt ` chunk (bytes 12-35) and
  the header of the `data` chunk (bytes 36-43).
*/
module WavHeader {
  import opened Prelude

  const TwoTo16: nat := 0x1_0000
  const TwoTo32: nat := 0x1_0000_0000

  /** Bits per sample; the writer always produces 16-bit PCM. */
  const BitDepth: nat := 16

  /** The UTF-16 code units of one character of a JavaScript string: the
      code itself below U+10000, otherwise a high and a low surrogate. */
  function CodeUnits(c: char): (r: seq<nat>)
    ensures 1 <= |r| <= 2
    ensures |r| == 1 <==> (c as int) < TwoTo16
    ensures forall i :: 0 <= i < |r| ==> r[i] < TwoTo16
    ensures (c as int) < TwoTo16 ==> r == [c as int]
    ensures (c as int) >= TwoTo16 ==> 0xD800 <= r[0] < 0xDC00 <= r[1] < 0xE000
    ensures (c as int) >= TwoTo16 ==> TwoTo16 + (r[0] - 0xD800) * 0x400 + (r[1] - 0xDC00) == c as int
  {
    var v := c as int;
    if v < TwoTo16 then [v]
    else [0xD800 + (v - TwoTo16) / 0x400, 0xDC00 + (v - TwoTo16) % 0x400]
  }

  // Below U+10000 a character is its own code unit; beyond it, a high
  // surrogate (0xD800-0xDBFF) and a low surrogate (0xDC00-0xDFFF) that
  // together give its code back.

  /** The code units of a string: what `string.length` counts and what
      `charCodeAt(i)` reads. */
  function Utf16(s: string): (r: seq<nat>)
    ensures |r| >= |s|
    ensures forall i :: 0 <= i < |r| ==> r[i] < TwoTo16
  {
    if s == [] then [] else CodeUnits(s[0]) + Utf16(s[1..])
  }

  /** The bytes `setUint8(offset + i, charCodeAt(i))` stores: each code unit
      of the string, taken modulo 256. */
  function StringBytes(s: string): (r: seq<Byte>)
    ensures |r| == |Utf16(s)|
    ensures forall i :: 0 <= i < |r| ==> r[i] == Utf16(s)[i] % 256
    ensures |Utf16(s)| == |s| ==> forall i :: 0 <= i < |s| ==> r[i] == (s[i] as int) % 256
  {
    BasicPlaneUnits(s);
    var units := Utf16(s);
    seq(|units|, i requires 0 <= i < |units| => units[i] % 256)
  }

  /** The two bytes `setUint16(offset, v, true)` stores: `v` modulo 2^16,
      least significant byte first. */
  function LE16(v: nat): seq<Byte>
  {
    [v % 256, (v / 0x100) % 256]
  }

  /** The four bytes `setUint32(offset, v, true)` stores: `v` modulo 2^32,
      least significant byte first. */
  function LE32(v: nat): seq<Byte>
  {
    [v % 256, (v / 0x100) % 256, (v / 0x1_0000) % 256, (v / 0x100_0000) % 256]
  }

  /** A little-endian unsigned 16-bit field, as a reader decodes it. */
  function U16(b: seq<Byte>): nat
    requires |b| == 2
  {
    (b[0] as int) + 0x100 * (b[1] as int)
  }

  /** A little-endian unsigned 32-bit field, as a reader decodes it. */
  function U32(b: seq<Byte>): nat
    requires |b| == 4
  {
    (b[0] as int) + 0x100 * (b[1] as int) + 0x1_0000 * (b[2] as int) + 0x100_0000 * (b[3] as int)
  }

  /** `m * a` exceeds `m * b` by at least `m` when `a > b`. */
  lemma {:induction false} MulStep(m: int, a: int, b: int)
    requires m > 0 && a > b
    ensures m * a >= m * b + m
    decreases a - b
  {
    if a > b + 1 {
      MulStep(m, a - 1, b);
    }
    assert m * a == m * (a - 1) + m;
  }

  /** Quotient and remainder are unique. */
  lemma {:induction false} DivModUnique(v: int, m: int, q: int, r: int)
    requires m > 0 && v == m * q + r && 0 <= r < m
    ensures v / m == q && v % m == r
  {
    var q' := v / m;
    if q' < q {
      MulStep(m, q, q');
    } else if q' > q {
      MulStep(m, q', q);
    }
  }

  /** Taking a value modulo `a * b` keeps its remainder by `a` and the
      remainder by `b` of its quotient by `a`. */
  lemma {:induction false} ModSplit(v: nat, a: nat, b: nat)
    requires a > 0 && b > 0
    ensures v % (a * b) == v % a + a * ((v / a) % b)
    ensures v / (a * b) == (v / a) / b
  {
    var q := v / a;
    var r := v % a;
    var q2 := q / b;
    var r2 := q % b;
    assert v == a * q + r;
    assert q == b * q2 + r2;
    assert a * q == (a * b) * q2 + a * r2 by {
      assert a * q == a * (b * q2) + a * r2;
      assert a * (b * q2) == (a * b) * q2;
    }
    assert a * r2 + r < a * b by {
      MulStep(a, b, r2);
    }
    DivModUnique(v, a * b, q2, a * r2 + r);
  }

  /** A reader decodes the stored 16-bit field as the value modulo 2^16. */
  lemma {:induction false} LE16Decodes(v: nat)
    ensures U16(LE16(v)) == v % TwoTo16
  {
    ModSplit(v, 0x100, 0x100);
  }

  /** A reader decodes the stored 32-bit field as the value modulo 2^32. */
  lemma {:induction false} LE32Decodes(v: nat)
    ensures U32(LE32(v)) == v % TwoTo32
  {
    var high := v / 0x1_0000;
    LE16Decodes(v);
    LE16Decodes(high);
    ModSplit(v, 0x1_0000, 0x100);
    ModSplit(v, 0x1_0000, 0x1_0000);
    assert LE32(v) == LE16(v) + LE16(high);
  }

  /** The buffer `s` with `bytes` written from `offset` on: the bytes before
      and after the written ones are those of `s`. */
  function Splice(s: seq<Byte>, offset: nat, bytes: seq<Byte>): (r: seq<Byte>)
    requires offset + |bytes| <= |s|
    ensures |r| == |s|
  {
    s[..offset] + bytes + s[offset + |bytes|..]
  }

  /** Writing `a` and then `b` right after it is writing `a + b`. */
  lemma {:induction false} SpliceAdjacent(s: seq<Byte>, offset: nat, a: seq<Byte>, b: seq<Byte>)
    requires offset + |a| + |b| <= |s|
    ensures Splice(Splice(s, offset, a), offset + |a|, b) == Splice(s, offset, a + b)
  {
    var t := Splice(s, offset, a);
    assert t[..offset + |a|] == s[..offset] + a;
    assert t[offset + |a| + |b|..] == s[offset + |a| + |b|..];
  }

  /** Writing one more byte right after `a` is writing `a + [x]`. */
  lemma {:induction false} SpliceExtend(s: seq<Byte>, offset: nat, a: seq<Byte>, x: Byte)
    requires offset + |a| + 1 <= |s|
    ensures Splice(s, offset, a)[offset + |a| := x] == Splice(s, offset, a + [x])
  {
    var t := Splice(s, offset, a)[offset + |a| := x];
    assert t[..offset] == s[..offset];
    assert t[offset..offset + |a| + 1] == a + [x];
    assert t[offset + |a| + 1..] == s[offset + |a| + 1..];
    assert t == t[..offset] + t[offset..offset + |a| + 1] + t[offset + |a| + 1..];
  }

  /** `writeString`: code unit `i` of the string goes to byte `offset + i`;
      no other byte changes. */
  method WriteString(view: array<Byte>, offset: nat, s: string)
    requires offset + |Utf16(s)| <= view.Length
    modifies view
    ensures view[..] == Splice(old(view[..]), offset, StringBytes(s))
  {
    var units := Utf16(s);
    ghost var bytes := StringBytes(s);
    ghost var before := view[..];
    var i := 0;
    while i < |units|
      invariant 0 <= i <= |units|
      invariant view[..] == Splice(before, offset, bytes[..i])
    {
      assert bytes[..i + 1] == bytes[..i] + [bytes[i]];
      SpliceExtend(before, offset, bytes[..i], bytes[i]);
      view[offset + i] := units[i] % 256;
      i := i + 1;
    }
    assert bytes[..i] == bytes;
  }

  /** `DataView.setUint16(offset, value, true)`. */
  method SetUint16(view: array<Byte>, offset: nat, value: nat)
    requires offset + 2 <= view.Length
    modifies view
    ensures view[..] == Splice(old(view[..]), offset, LE16(value))
  {
    view[offset] := value % 256;
    view[offset + 1] := (value / 0x100) % 256;
  }

  /** `DataView.setUint32(offset, value, true)`. */
  method SetUint32(view: array<Byte>, offset: nat, value: nat)
    requires offset + 4 <= view.Length
    modifies view
    ensures view[..] == Splice(old(view[..]), offset, LE32(value))
  {
    view[offset] := value % 256;
    view[offset + 1] := (value / 0x100) % 256;
    view[offset + 2] := (value / 0x1_0000) % 256;
    view[offset + 3] := (value / 0x100_0000) % 256;
  }

  /** The sample area's byte count: two bytes for each sample of the first
      channel only. */
  function DataLength(frames: nat): nat
  {
    frames * (BitDepth / 8)
  }

  /** Bytes 0-11 of the header: "RIFF", the length of the rest of the
      file, "WAVE". */
  function RiffDescriptor(dataLength: nat): seq<Byte>
  {
    StringBytes("RIFF") + LE32(36 + dataLength) + StringBytes("WAVE")
  }

  /** Bytes 12-35 of the header: the `fmt ` chunk of 16-bit PCM. */
  function FmtChunk(sampleRate: nat, numberOfChannels: nat): seq<Byte>
  {
    FmtFormat(numberOfChannels) + FmtRates(sampleRate, numberOfChannels)
  }

  /** The first half of the `fmt ` chunk: its tag, its length 16, format 1
      (PCM) and the channel count. */
  function FmtFormat(numberOfChannels: nat): seq<Byte>
  {
    StringBytes("fmt ") + LE32(16) + LE16(1) + LE16(numberOfChannels)
  }

  /** The second half of the `fmt ` chunk: sample rate, byte rate, block
      alignment and bits per sample. */
  function FmtRates(sampleRate: nat, numberOfChannels: nat): seq<Byte>
  {
    var blockAlign := numberOfChannels * (BitDepth / 8);
    var byteRate := sampleRate * blockAlign;
    LE32(sampleRate) + LE32(byteRate) + LE16(blockAlign) + LE16(BitDepth)
  }

  /** Bytes 36-43 of the header: "data" and the sample area's byte count. */
  function DataChunkHeader(dataLength: nat): seq<Byte>
  {
    StringBytes("data") + LE32(dataLength)
  }

  /** The header bytes in the order they are written. */
  function Header(frames: nat, sampleRate: nat, numberOfChannels: nat): seq<Byte>
  {
    RiffDescriptor(DataLength(frames)) + FmtChunk(sampleRate, numberOfChannels) +
    DataChunkHeader(DataLength(frames))
  }

  /** The Int16 slot the sample of frame `frame` and channel `channel` is
      stored to. */
  function Slot(frame: nat, channel: nat, numberOfChannels: nat): nat
  {
    frame * numberOfChannels + channel
  }

  /** Which sample a slot holds once the first `upto` slots are written:
      slot `k` is written by frame `k / n`, channel `k % n`. */
  function Written(k: nat, upto: nat, numberOfChannels: nat): Option<(nat, nat)>
  {
    if k < upto && numberOfChannels > 0 then Some((k / numberOfChannels, k % numberOfChannels)) else None
  }

  /** `createWavBlob(data, sampleRate, numberOfChannels)`, with `data`
      given by the lengths of its channel arrays: a buffer of
      `44 + dataLength` bytes, the header written field by field, and an
      Int16 view over the rest whose slot `frame * numberOfChannels + channel`
      receives that sample. Writes past the end of the view are dropped.
      Reading `data[0]` of an empty list, or `data[channel]` for a channel
      the list does not have, throws. The sample values are not modelled:
      the second component records, for every slot, which frame and channel
      wrote it last. */
  method CreateWavBlob(data: seq<nat>, sampleRate: nat, numberOfChannels: nat)
    returns (result: Result<(seq<Byte>, seq<Option<(nat, nat)>>)>)
    ensures data == [] ==> result == Err(TypeError)
    ensures data != [] && data[0] > 0 && |data| < numberOfChannels ==> result == Err(TypeError)
    ensures data != [] && (data[0] == 0 || numberOfChannels <= |data|) ==> result.Ok?
    ensures result.Ok? ==> data != [] && |result.value.0| == 44 + DataLength(data[0])
    ensures result.Ok? ==> result.value.0[..44] == Header(data[0], sampleRate, numberOfChannels)
    ensures result.Ok? ==> |result.value.1| == DataLength(data[0]) / 2
    ensures result.Ok? ==> forall k :: 0 <= k < |result.value.1| ==>
      result.value.1[k] == if numberOfChannels > 0 then Some((k / numberOfChannels, k % numberOfChannels)) else None
  {
    if data == [] {
      return Err(TypeError);
    }
    var frames := data[0];
    var view := new Byte[44 + DataLength(frames)];
    WriteHeader(view, frames, sampleRate, numberOfChannels);

    var dataView, thrown := WriteSamples(frames, numberOfChannels, |data|);
    if thrown {
      return Err(TypeError);
    }
    result := Ok((view[..], dataView[..]));
  }

  /** Bytes 0-43: the RIFF descriptor, the `fmt ` chunk and the `data`
      chunk header, written in that order. */
  method WriteHeader(view: array<Byte>, frames: nat, sampleRate: nat, numberOfChannels: nat)
    requires 44 <= view.Length
    modifies view
    ensures view[..] == Splice(old(view[..]), 0, Header(frames, sampleRate, numberOfChannels))
    ensures view[..44] == Header(frames, sampleRate, numberOfChannels)
  {
    var dataLength := DataLength(frames);
    ghost var blank := view[..];
    WriteRiffDescriptor(view, dataLength);
    WriteFmtChunk(view, sampleRate, numberOfChannels);
    WriteDataChunkHeader(view, dataLength);
    ghost var riff := RiffDescriptor(dataLength);
    ghost var fmt := FmtChunk(sampleRate, numberOfChannels);
    SpliceAdjacent(blank, 0, riff, fmt);
    SpliceAdjacent(blank, 0, riff + fmt, DataChunkHeader(dataLength));
  }

  /** Bytes 0-11: "RIFF", the length of the rest of the file, "WAVE". */
  method WriteRiffDescriptor(view: array<Byte>, dataLength: nat)
    requires 12 <= view.Length
    modifies view
    ensures view[..] == Splice(old(view[..]), 0, RiffDescriptor(dataLength))
  {
    ghost var before := view[..];
    WriteString(view, 0, "RIFF");
    SetUint32(view, 4, 36 + dataLength);
    SpliceAdjacent(before, 0, StringBytes("RIFF"), LE32(36 + dataLength));
    WriteString(view, 8, "WAVE");
    SpliceAdjacent(before, 0, StringBytes("RIFF") + LE32(36 + dataLength), StringBytes("WAVE"));
  }

  /** Bytes 12-35: the `fmt ` chunk of 16-bit PCM. */
  method WriteFmtChunk(view: array<Byte>, sampleRate: nat, numberOfChannels: nat)
    requires 36 <= view.Length
    modifies view
    ensures view[..] == Splice(old(view[..]), 12, FmtChunk(sampleRate, numberOfChannels))
  {
    var blockAlign := numberOfChannels * (BitDepth / 8);
    var byteRate := sampleRate * blockAlign;
    ghost var before := view[..];
    WriteString(view, 12, "fmt ");
    SetUint32(view, 16, 16);
    SpliceAdjacent(before, 12, StringBytes("fmt "), LE32(16));
    SetUint16(view, 20, 1);
    SpliceAdjacent(before, 12, StringBytes("fmt ") + LE32(16), LE16(1));
    SetUint16(view, 22, numberOfChannels);
    SpliceAdjacent(before, 12, StringBytes("fmt ") + LE32(16) + LE16(1), LE16(numberOfChannels));
    ghost var front := FmtFormat(numberOfChannels);
    SetUint32(view, 24, sampleRate);
    SpliceAdjacent(before, 12, front, LE32(sampleRate));
    SetUint32(view, 28, byteRate);
    SpliceAdjacent(before, 12, front + LE32(sampleRate), LE32(byteRate));
    SetUint16(view, 32, blockAlign);
    SpliceAdjacent(before, 12, front + LE32(sampleRate) + LE32(byteRate), LE16(blockAlign));
    SetUint16(view, 34, BitDepth);
    SpliceAdjacent(before, 12, front + LE32(sampleRate) + LE32(byteRate) + LE16(blockAlign), LE16(BitDepth));
    assert front + LE32(sampleRate) + LE32(byteRate) + LE16(blockAlign) + LE16(BitDepth)
        == FmtChunk(sampleRate, numberOfChannels);
  }

  /** Bytes 36-43: "data" and the sample area's byte count. */
  method WriteDataChunkHeader(view: array<Byte>, dataLength: nat)
    requires 44 <= view.Length
    modifies view
    ensures view[..] == Splice(old(view[..]), 36, DataChunkHeader(dataLength))
  {
    ghost var before := view[..];
    WriteString(view, 36, "data");
    SetUint32(view, 40, dataLength);
    SpliceAdjacent(before, 36, StringBytes("data"), LE32(dataLength));
  }

  /** The nested sample loop over an Int16 view of `frames` slots: slot
      `i * numberOfChannels + channel` receives the sample of frame `i` and
      channel `channel` when it lies inside the view. Reading the sample of
      a channel at or beyond `channelCount` (the length of `data`) throws,
      which the loop meets at once when there is a frame to write. */
  method WriteSamples(frames: nat, numberOfChannels: nat, channelCount: nat)
    returns (dataView: array<Option<(nat, nat)>>, thrown: bool)
    ensures thrown <==> frames > 0 && channelCount < numberOfChannels
    ensures fresh(dataView) && dataView.Length == frames
    ensures !thrown ==> forall k :: 0 <= k < frames ==>
      dataView[k] == if numberOfChannels > 0 then Some((k / numberOfChannels, k % numberOfChannels)) else None
  {
    dataView := new Option<(nat, nat)>[frames](_ => None);
    thrown := false;
    ghost var base := 0;
    var i := 0;
    while i < frames
      invariant 0 <= i <= frames
      invariant i > 0 ==> numberOfChannels <= channelCount
      invariant base == Slot(i, 0, numberOfChannels)
      invariant numberOfChannels > 0 ==> base >= i
      invariant forall k :: 0 <= k < frames ==> dataView[k] == Written(k, base, numberOfChannels)
    {
      var channel := 0;
      while channel < numberOfChannels
        invariant 0 <= channel <= numberOfChannels
        invariant channel <= channelCount
        invariant forall k :: 0 <= k < frames ==> dataView[k] == Written(k, base + channel, numberOfChannels)
      {
        if channel >= channelCount {
          thrown := true;
          return;
        }
        var index := i * numberOfChannels + channel;
        assert index == base + channel;
        if index < dataView.Length {
          SlotOwner(i, channel, numberOfChannels);
          dataView[index] := Some((i, channel));
        }
        channel := channel + 1;
      }
      SlotNext(i, numberOfChannels);
      base := base + numberOfChannels;
      i := i + 1;
    }
  }

  /** The slots of frame `i + 1` start right after those of frame `i`. */
  lemma {:induction false} SlotNext(i: nat, n: nat)
    ensures Slot(i + 1, 0, n) == Slot(i, 0, n) + n
  {
  }

  /** The sample of frame `i`, channel `c < n` is the one slot
      `i * n + c` belongs to: dividing the slot by `n` gives the frame back
      and the remainder the channel. */
  lemma {:induction false} SlotOwner(i: nat, c: nat, n: nat)
    requires c < n
    ensures Slot(i, c, n) / n == i && Slot(i, c, n) % n == c
  {
    DivModUnique(Slot(i, c, n), n, i, c);
  }

  // ---------------------------------------------------------------------
  // What a reader finds in the header.

  /** The four chunk tags, as bytes. */
  lemma {:induction false} ChunkTags()
    ensures StringBytes("RIFF") == [0x52, 0x49, 0x46, 0x46]
    ensures StringBytes("WAVE") == [0x57, 0x41, 0x56, 0x45]
    ensures StringBytes("fmt ") == [0x66, 0x6d, 0x74, 0x20]
    ensures StringBytes("data") == [0x64, 0x61, 0x74, 0x61]
  {
    TagBytes("RIFF", [0x52, 0x49, 0x46, 0x46]);
    TagBytes("WAVE", [0x57, 0x41, 0x56, 0x45]);
    TagBytes("fmt ", [0x66, 0x6d, 0x74, 0x20]);
    TagBytes("data", [0x64, 0x61, 0x74, 0x61]);
  }

  /** Characters whose codes are below 256 are stored as those codes, one
      byte each. */
  lemma {:induction false} TagBytes(s: string, b: seq<Byte>)
    requires |s| == |b|
    requires forall i :: 0 <= i < |s| ==> s[i] as int == b[i]
    ensures StringBytes(s) == b
  {
    BasicPlaneUnits(s);
  }

  /** A string has exactly one code unit per character when no character
      lies beyond U+FFFF, and then each unit is its character's code. */
  lemma {:induction false} BasicPlaneUnits(s: string)
    ensures |Utf16(s)| == |s| <==> forall i :: 0 <= i < |s| ==> (s[i] as int) < TwoTo16
    ensures |Utf16(s)| == |s| ==> forall i :: 0 <= i < |s| ==> Utf16(s)[i] == s[i] as int
  {
    if s != [] {
      BasicPlaneUnits(s[1..]);
      assert forall i :: 1 <= i < |s| ==> s[i] == s[1..][i - 1];
    }
  }

  /** U+1F600 is written as two bytes: the low bytes of its surrogates
      0xD83D and 0xDE00. */
  lemma {:induction false} NonBasicCharacterBytes()
    ensures StringBytes("\U{1F600}") == [0x3D, 0x00]
  {
    assert CodeUnits('\U{1F600}') == [0xD83D, 0xDE00];
    assert Utf16("\U{1F600}") == CodeUnits('\U{1F600}') + Utf16([]);
  }

  /** Bytes 0-11 hold "RIFF", the length of the rest of the file
      (`36 + dataLength`) and "WAVE". */
  lemma {:induction false} RiffFields(frames: nat, sampleRate: nat, numberOfChannels: nat)
    ensures |Header(frames, sampleRate, numberOfChannels)| == 44
    ensures Header(frames, sampleRate, numberOfChannels)[0..4] == [0x52, 0x49, 0x46, 0x46]
    ensures U32(Header(frames, sampleRate, numberOfChannels)[4..8]) == (36 + 2 * frames) % TwoTo32
    ensures Header(frames, sampleRate, numberOfChannels)[8..12] == [0x57, 0x41, 0x56, 0x45]
  {
    var h := Header(frames, sampleRate, numberOfChannels);
    ChunkTags();
    var r := RiffDescriptor(DataLength(frames));
    assert h[..12] == r;
    assert r[0..4] == StringBytes("RIFF");
    assert r[4..8] == LE32(36 + DataLength(frames));
    assert r[8..12] == StringBytes("WAVE");
    assert h[0..4] == r[0..4] && h[4..8] == r[4..8] && h[8..12] == r[8..12];
    LE32Decodes(36 + DataLength(frames));
  }

  /** Bytes 12-35 hold "fmt ", the chunk length 16, format 1 (PCM), the
      channel count, the sample rate, the byte rate `sampleRate * blockAlign`,
      the block alignment `numberOfChannels * 2` and 16 bits per sample,
      each reduced to the width of its field. */
  lemma {:induction false} FmtFields(frames: nat, sampleRate: nat, numberOfChannels: nat)
    ensures |Header(frames, sampleRate, numberOfChannels)| == 44
    ensures Header(frames, sampleRate, numberOfChannels)[12..16] == [0x66, 0x6d, 0x74, 0x20]
    ensures U32(Header(frames, sampleRate, numberOfChannels)[16..20]) == 16
    ensures U16(Header(frames, sampleRate, numberOfChannels)[20..22]) == 1
    ensures U16(Header(frames, sampleRate, numberOfChannels)[22..24]) == numberOfChannels % TwoTo16
    ensures U32(Header(frames, sampleRate, numberOfChannels)[24..28]) == sampleRate % TwoTo32
    ensures U32(Header(frames, sampleRate, numberOfChannels)[28..32]) == (sampleRate * (numberOfChannels * 2)) % TwoTo32
    ensures U16(Header(frames, sampleRate, numberOfChannels)[32..34]) == (numberOfChannels * 2) % TwoTo16
    ensures U16(Header(frames, sampleRate, numberOfChannels)[34..36]) == 16
  {
    var h := Header(frames, sampleRate, numberOfChannels);
    var f := FmtChunk(sampleRate, numberOfChannels);
    assert h[12..36] == f;
    FmtChunkFields(sampleRate, numberOfChannels);
    SubSlice(h, f, 12, 0, 4);
    SubSlice(h, f, 12, 4, 8);
    SubSlice(h, f, 12, 8, 10);
    SubSlice(h, f, 12, 10, 12);
    SubSlice(h, f, 12, 12, 16);
    SubSlice(h, f, 12, 16, 20);
    SubSlice(h, f, 12, 20, 22);
    SubSlice(h, f, 12, 22, 24);
  }

  /** Bytes `a` to `b` of a piece stored at `offset` are bytes
      `offset + a` to `offset + b` of the whole. */
  lemma {:induction false} SubSlice(h: seq<Byte>, f: seq<Byte>, offset: nat, a: nat, b: nat)
    requires offset + |f| <= |h| && h[offset..offset + |f|] == f
    requires a <= b <= |f|
    ensures h[offset + a..offset + b] == f[a..b]
  {
    assert forall k :: a <= k < b ==> f[k] == h[offset + k];
  }

  /** The fields of the `fmt ` chunk, at offsets within the chunk. */
  lemma {:induction false} FmtChunkFields(sampleRate: nat, numberOfChannels: nat)
    ensures |FmtChunk(sampleRate, numberOfChannels)| == 24
    ensures FmtChunk(sampleRate, numberOfChannels)[0..4] == [0x66, 0x6d, 0x74, 0x20]
    ensures U32(FmtChunk(sampleRate, numberOfChannels)[4..8]) == 16
    ensures U16(FmtChunk(sampleRate, numberOfChannels)[8..10]) == 1
    ensures U16(FmtChunk(sampleRate, numberOfChannels)[10..12]) == numberOfChannels % TwoTo16
    ensures U32(FmtChunk(sampleRate, numberOfChannels)[12..16]) == sampleRate % TwoTo32
    ensures U32(FmtChunk(sampleRate, numberOfChannels)[16..20]) == (sampleRate * (numberOfChannels * 2)) % TwoTo32
    ensures U16(FmtChunk(sampleRate, numberOfChannels)[20..22]) == (numberOfChannels * 2) % TwoTo16
    ensures U16(FmtChunk(sampleRate, numberOfChannels)[22..24]) == 16
  {
    var f := FmtChunk(sampleRate, numberOfChannels);
    var front := FmtFormat(numberOfChannels);
    var back := FmtRates(sampleRate, numberOfChannels);
    FmtFormatFields(numberOfChannels);
    FmtRatesFields(sampleRate, numberOfChannels);
    assert f == front + back;
    assert f[0..4] == front[0..4] && f[4..8] == front[4..8] && f[8..10] == front[8..10] && f[10..12] == front[10..12];
    assert f[12..16] == back[0..4] && f[16..20] == back[4..8] && f[20..22] == back[8..10] && f[22..24] == back[10..12];
  }

  /** The tag, chunk length, format and channel count of the `fmt ` chunk. */
  lemma {:induction false} FmtFormatFields(numberOfChannels: nat)
    ensures |FmtFormat(numberOfChannels)| == 12
    ensures FmtFormat(numberOfChannels)[0..4] == [0x66, 0x6d, 0x74, 0x20]
    ensures U32(FmtFormat(numberOfChannels)[4..8]) == 16
    ensures U16(FmtFormat(numberOfChannels)[8..10]) == 1
    ensures U16(FmtFormat(numberOfChannels)[10..12]) == numberOfChannels % TwoTo16
  {
    var front := FmtFormat(numberOfChannels);
    ChunkTags();
    assert front[0..4] == StringBytes("fmt ") && front[4..8] == LE32(16);
    assert front[8..10] == LE16(1) && front[10..12] == LE16(numberOfChannels);
    LE16Decodes(numberOfChannels);
  }

  /** The sample rate, byte rate, block alignment and sample width of the
      `fmt ` chunk. */
  lemma {:induction false} FmtRatesFields(sampleRate: nat, numberOfChannels: nat)
    ensures |FmtRates(sampleRate, numberOfChannels)| == 12
    ensures U32(FmtRates(sampleRate, numberOfChannels)[0..4]) == sampleRate % TwoTo32
    ensures U32(FmtRates(sampleRate, numberOfChannels)[4..8]) == (sampleRate * (numberOfChannels * 2)) % TwoTo32
    ensures U16(FmtRates(sampleRate, numberOfChannels)[8..10]) == (numberOfChannels * 2) % TwoTo16
    ensures U16(FmtRates(sampleRate, numberOfChannels)[10..12]) == 16
  {
    var back := FmtRates(sampleRate, numberOfChannels);
    var blockAlign := numberOfChannels * 2;
    WideFields(back, sampleRate, sampleRate * blockAlign, blockAlign, BitDepth);
  }

  /** Two 32-bit fields followed by two 16-bit fields decode to their values,
      each modulo the width of its field. */
  lemma {:induction false} WideFields(s: seq<Byte>, a: nat, b: nat, c: nat, d: nat)
    requires s == LE32(a) + LE32(b) + LE16(c) + LE16(d)
    ensures |s| == 12
    ensures U32(s[0..4]) == a % TwoTo32 && U32(s[4..8]) == b % TwoTo32
    ensures U16(s[8..10]) == c % TwoTo16 && U16(s[10..12]) == d % TwoTo16
  {
    assert s[0..4] == LE32(a) && s[4..8] == LE32(b);
    assert s[8..10] == LE16(c) && s[10..12] == LE16(d);
    LE32Decodes(a);
    LE32Decodes(b);
    LE16Decodes(c);
    LE16Decodes(d);
  }

  /** Bytes 36-43 hold "data" and `dataLength`, which counts two bytes per
      frame whatever the channel count. */
  lemma {:induction false} DataFields(frames: nat, sampleRate: nat, numberOfChannels: nat)
    ensures |Header(frames, sampleRate, numberOfChannels)| == 44
    ensures Header(frames, sampleRate, numberOfChannels)[36..40] == [0x64, 0x61, 0x74, 0x61]
    ensures U32(Header(frames, sampleRate, numberOfChannels)[40..44]) == (2 * frames) % TwoTo32
  {
    var h := Header(frames, sampleRate, numberOfChannels);
    ChunkTags();
    var d := DataChunkHeader(DataLength(frames));
    assert h[36..] == d;
    assert d[0..4] == StringBytes("data") && d[4..8] == LE32(DataLength(frames));
    assert h[36..40] == d[0..4] && h[40..44] == d[4..8];
    LE32Decodes(DataLength(frames));
  }

  // ---------------------------------------------------------------------
  // The sample slots.

  /** Distinct (frame, channel) pairs are stored to distinct slots. */
  lemma {:induction false} SlotsDistinct(i: nat, c: nat, j: nat, d: nat, n: nat)
    requires c < n && d < n
    ensures Slot(i, c, n) == Slot(j, d, n) <==> i == j && c == d
  {
    SlotOwner(i, c, n);
    SlotOwner(j, d, n);
  }

  /** Every sample of `frames` frames lands inside the Int16 view of
      `dataLength / 2 == frames` slots exactly when there is at most one
      channel (or no frame): with two or more channels the view is too
      short and the samples whose slot lies past its end are dropped. */
  lemma {:induction false} SamplesFit(frames: nat, n: nat)
    ensures (forall i, c :: 0 <= i < frames && 0 <= c < n ==> Slot(i, c, n) < frames)
            <==> (n <= 1 || frames == 0)
  {
    if n > 1 && frames > 0 {
      assert Slot(frames - 1, 1, n) >= frames by {
        if frames > 1 {
          MulStep(frames - 1, n, 1);
        }
      }
    }
  }
}
