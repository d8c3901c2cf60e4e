# Huffman coders and the WAV writer of the media compression pages

This project models the three algorithmic pieces of the media compression
web pages:

- the byte-level Huffman codec of the video page (`scripts/videoHuffman.js`):
  counting byte frequencies, building the tree by repeated stable sorting and
  merging, reading the code table off the tree, encoding, and decoding by a
  cursor that walks the tree;
- the Huffman WAV compressor of the audio page (`scripts/audioHuffman.js`):
  the same tree and code construction over an insertion-ordered `Map`, the
  44-byte header kept as it is, the code bits packed eight to a byte with the
  final short group right-aligned, and header and body joined;
- the WAV writer of the audio page (`scripts/audioAritmatic.js`): the 44-byte
  RIFF/WAVE header of 16-bit PCM written field by field through a
  little-endian view, and the interleaved Int16 sample slots.

Files and modules:

| file | module | contents |
|---|---|---|
| `prelude.dfy` | `Prelude` | bytes, `Option`, `Result` and the one error the code raises (`TypeError`) |
| `trees.dfy` | `HuffmanTrees` | the tree value, the stable sort, one merge round (`Step`), the whole loop (`Merge`) |
| `codes.dfy` | `HuffmanCodes` | code tables, the encoder, the decoding walk, prefix-freedom and the round trip |
| `frequencies.dfy` | `Frequencies` | frequency tables, their total, first-appearance key order |
| `round_trip.dfy` | `RoundTrip` | what the full count-build-code-encode-decode chain returns |
| `video_huffman.dfy` | `VideoHuffman` | the video page's functions as imperative methods |
| `bit_packing.dfy` | `BitPacking` | packing code bits into bytes, and reading them back |
| `audio_huffman.dfy` | `AudioHuffman` | the audio page's Huffman functions and `huffmanCompressWav` |
| `wav_header.dfy` | `WavHeader` | `writeString`, the `DataView` setters, `createWavBlob` and what a reader finds in its header |

Modelling choices:

- Tree nodes are never changed after they are built, so a tree is a datatype
  (`Leaf(symbol, weight)` or `Node(weight, left, right)`). An internal node
  has no symbol (`null` in the source); a leaf has no children.
- The built-in sort is stable; it is modelled as an insertion sort that keeps
  equal frequencies in their current order (`SortByFrequency`).
- A plain object enumerates integer keys in ascending order, so the video
  tree starts from the leaves in ascending byte order (`LeavesFrom`). A
  `Map` enumerates keys in insertion order, so the audio tree starts from
  the leaves in first-appearance order (`FreqMap`, `FirstAppearance`).
- Code strings are `seq<bool>`: `false` is the character '0', `true` is '1'.
- Dereferencing `undefined` or `null` raises a `TypeError`; it is modelled as
  `Err(TypeError)`. The rejected promise of the async `huffmanCompressWav`
  is modelled the same way.
- The `DataView` setters store their value modulo 2^16 or 2^32. The model
  writes that out and proves what a little-endian reader decodes.
- A JavaScript string is a sequence of UTF-16 code units: `string.length`
  counts them and `charCodeAt(i)` reads one. The model turns a Dafny string
  (Unicode scalar values) into those units (`Utf16`), with a surrogate pair
  for every character beyond U+FFFF.
- The sample data of `createWavBlob` is given by the lengths of its channel
  arrays: the first length is the frame count, and the number of arrays
  decides whether `data[channel]` exists.
- Sample values are not modelled. Each Int16 slot of the WAV body records
  which (frame, channel) pair wrote it last, or `None`.

## Model

| member | source | states |
|---|---|---|
| VideoHuffman.CalculateFrequency | scripts/videoHuffman.js:12-19 | the table has an entry for exactly the bytes of the data, each holding that byte's number of occurrences |
| Frequencies.GetTotalFrequency | scripts/videoHuffman.js:67-69 | the sum of the table's values: no value exceeds it, and it is 0 exactly when every value is 0 |
| Frequencies.TotalFrequencyIsLength | scripts/videoHuffman.js:67-69 | the total of a table counted from data equals the data's length |
| Frequencies.FirstAppearanceOrder | scripts/audioHuffman.js:54-60 | the `Map` key order holds every byte of the data once, ordered by where each byte first occurs |
| AudioHuffman.FreqMap.Set | scripts/audioHuffman.js:57 | `Map.set` updates the value; a new key goes to the end of the key order, an existing key keeps its place |
| AudioHuffman.CalculateFrequencies | scripts/audioHuffman.js:54-60 | the map's keys are the bytes in first-appearance order, and each value is that byte's number of occurrences |
| HuffmanTrees.InsertPermutes | scripts/videoHuffman.js:26 | inserting a node adds exactly that node to the list |
| HuffmanTrees.SortPermutes | scripts/videoHuffman.js:26 | the sort is a permutation of the nodes |
| HuffmanTrees.SortSorts | scripts/videoHuffman.js:26 | the sort orders the nodes by ascending frequency |
| HuffmanTrees.SortSorted | scripts/audioHuffman.js:96-103 | sorting an already sorted list leaves it unchanged |
| HuffmanTrees.SortPicksFirstLightest | scripts/videoHuffman.js:26 | the sort is stable: it brings the earliest of the lightest nodes to the front |
| HuffmanTrees.StepMergesTwoLightest | scripts/videoHuffman.js:26-30 | a round joins the first lightest node (left child) and the first lightest of the others (right child), and appends their parent after the rest in sorted order |
| HuffmanTrees.StepKeepsLeaves | scripts/videoHuffman.js:25-31 | a round keeps the leaves and the total frequency of the node list |
| HuffmanTrees.StepKeepsShape | scripts/videoHuffman.js:29 | a round builds only nodes whose frequency is the sum of their children's, over the same table |
| HuffmanTrees.MergePreserves | scripts/videoHuffman.js:25-31 | the whole loop keeps the leaves, the total frequency and the shape of the nodes |
| HuffmanTrees.MergeAfterSort | scripts/audioHuffman.js:94-107 | sorting before the loop and after each push (the audio loop) builds the same tree as sorting at the top of each round (the video loop) |
| HuffmanTrees.MergeBuildsTree | scripts/videoHuffman.js:23-33 | starting from one leaf per symbol, the last node is a Huffman tree over the table whose root frequency is the total |
| HuffmanTrees.LeafBagSize | scripts/videoHuffman.js:29 | every tree has a leaf, and an internal node has at least two |
| VideoHuffman.LeavesCover | scripts/videoHuffman.js:23 | the starting leaves hold each key of the table once, with its frequency, and sum to the table's total |
| VideoHuffman.BuildHuffmanTree | scripts/videoHuffman.js:22-34 | an empty table gives no tree; otherwise the result is what the merging loop builds from the leaves in ascending key order, a Huffman tree over the table whose root frequency is the table's total |
| AudioHuffman.LeavesOfCover | scripts/audioHuffman.js:95 | the starting leaves hold each key of the map once, with its count |
| AudioHuffman.BuildHuffmanTree | scripts/audioHuffman.js:94-107 | an empty map gives no tree; otherwise the result is what the merging loop builds from the leaves in key order, a Huffman tree over the map |
| HuffmanCodes.CodesCoverLeaves | scripts/videoHuffman.js:37-45 | the code table has an entry for exactly the leaf symbols, so internal nodes get none |
| HuffmanCodes.CodesShift | scripts/videoHuffman.js:37-45 | each code is the prefix handed down followed by the leaf's path |
| HuffmanCodes.CodeIsPath | scripts/videoHuffman.js:37-45 | following a symbol's code from the root ends at that symbol's leaf |
| HuffmanCodes.CodesPrefixFree | scripts/videoHuffman.js:37-45 | no symbol's code is a prefix of another symbol's code |
| HuffmanCodes.CodesOfNodeNonEmpty | scripts/videoHuffman.js:42-43 | under an internal root every code is non-empty |
| VideoHuffman.BuildHuffmanCodes | scripts/videoHuffman.js:37-45 | the returned table is the table handed in, extended by the path code of every leaf below the node |
| AudioHuffman.CodeTable.Traverse | scripts/audioHuffman.js:113-120 | the `Map` afterwards is the one before, extended by the path code of every leaf below the node |
| AudioHuffman.CodeTable.constructor | scripts/audioHuffman.js:111 | the table starts empty |
| AudioHuffman.GenerateHuffmanCodes | scripts/audioHuffman.js:110-125 | the result holds the path code of every leaf of the tree and nothing else |
| AudioHuffman.AudioCodesPrefixFree | scripts/audioHuffman.js:110-125 | the codes of a body's tree cover exactly the body's bytes and no code is a prefix of another |
| HuffmanCodes.HuffmanEncode | scripts/videoHuffman.js:48-50 | each byte's code in input order, joined, a byte without a code (`undefined`) adding nothing; a single byte encodes to its code, or to nothing when it has none |
| HuffmanCodes.EncodeAppend | scripts/videoHuffman.js:48-50 | encoding is in input order: the bits of `a + b` are those of `a` followed by those of `b` |
| HuffmanCodes.EncodeLength | scripts/videoHuffman.js:48-50 | the encoding is as long as the codes of its bytes together |
| HuffmanCodes.EncodePlacesCodes | scripts/videoHuffman.js:48-50 | byte `i`'s code sits in the encoding right after the codes of the bytes before it |
| HuffmanCodes.EncodeEmptyCodes | scripts/videoHuffman.js:38-49 | bytes whose codes are all empty encode to nothing |
| HuffmanCodes.DecodePath | scripts/videoHuffman.js:56-61 | walking a path that ends at a leaf emits that leaf's symbol and restarts at the root |
| HuffmanCodes.DecodeEncode | scripts/videoHuffman.js:53-64 | for a tree with an internal root, decoding the encoding of data over its leaves returns the data |
| HuffmanCodes.DecodePartialPath | scripts/videoHuffman.js:56-62 | bits that stop short of a leaf emit nothing |
| HuffmanCodes.DecodeIgnoresTrailingBits | scripts/videoHuffman.js:53-64 | trailing bits that do not reach a leaf are dropped: the data still comes back |
| VideoHuffman.HuffmanDecode | scripts/videoHuffman.js:53-64 | the cursor loop computes the decoding walk over all bits, including the `TypeError` when it steps down from a leaf |
| RoundTrip.RepeatedByteRoundTrip | scripts/videoHuffman.js:212-216 | data of one repeated byte gives a single-leaf tree, an empty code, an empty encoding, and decodes to nothing |
| RoundTrip.DistinctBytesRoundTrip | scripts/videoHuffman.js:212-216 | data with two different bytes decodes back to itself |
| RoundTrip.SingleByteNoNode | scripts/videoHuffman.js:23-33 | a tree over the counts of one repeated byte is a single leaf |
| RoundTrip.BytesAreLeaves | scripts/videoHuffman.js:23 | every byte of the data is a leaf of its tree |
| VideoHuffman.CompressAndRestore | scripts/videoHuffman.js:212-216 | empty data raises a `TypeError`; one repeated byte comes back empty; any other data comes back unchanged |
| BitPacking.PackGroups | scripts/audioHuffman.js:78-83 | the packed body has `ceil(bits / 8)` bytes and byte `j` is the most-significant-first value of bits `8j` up to `8j + 8` |
| BitPacking.PartialGroupRightAligned | scripts/audioHuffman.js:80-83 | a final group of `k < 8` bits is stored as its `k`-bit value: `8 - k` zero bits, then the group |
| BitPacking.UnpackPack | scripts/audioHuffman.js:78-83 | given the bit count, the packed bytes give the bits back |
| BitPacking.ToBitsValue | scripts/audioHuffman.js:82 | a group's value, written back in as many bits, is the group |
| BitPacking.LeadingZeros | scripts/audioHuffman.js:82 | leading zero bits do not change a group's value |
| BitPacking.BitsValue | scripts/audioHuffman.js:82 | a group of `k` bits has a value below `2^k` |
| AudioHuffman.EncodeBody | scripts/audioHuffman.js:72-75 | the accumulated string is the codes of the body bytes, in order |
| AudioHuffman.PackBits | scripts/audioHuffman.js:78-83 | the new byte array holds the packed body |
| AudioHuffman.CopyInto | scripts/audioHuffman.js:87-88 | `set` overwrites exactly the bytes from the offset on with the source |
| AudioHuffman.BodyHasCodes | scripts/audioHuffman.js:67-75 | every body byte has a code in the table built for the body |
| AudioHuffman.AudioTreeIsHuffmanTree | scripts/audioHuffman.js:67-68 | the tree built for a non-empty body is a Huffman tree over the body's counts |
| AudioHuffman.HuffmanCompressWav | scripts/audioHuffman.js:63-91 | input of at most 44 bytes raises a `TypeError`; otherwise the output is the first 44 bytes followed by the packed codes of the rest, `44 + ceil(bits / 8)` bytes long |
| AudioHuffman.RepeatedByteHeaderOnly | scripts/audioHuffman.js:72-83 | a body of one repeated byte has no code bits, so the output is the header alone |
| AudioHuffman.CompressedBodyDecodes | scripts/audioHuffman.js:63-91 | a body with two different bytes can be restored from the packed bytes and the bit count |
| WavHeader.CodeUnits | scripts/audioAritmatic.js:100-101 | a character below U+10000 is the one code unit holding its code; any other becomes a high surrogate (0xD800-0xDBFF) and a low surrogate (0xDC00-0xDFFF) that together give its code back; every unit is below 2^16 |
| WavHeader.Utf16 | scripts/audioAritmatic.js:100-101 | a string has at least as many code units as characters, each below 2^16 |
| WavHeader.StringBytes | scripts/audioAritmatic.js:101 | one byte per code unit, that unit modulo 256; when the string has one code unit per character, byte `i` is the code of character `i` modulo 256 |
| WavHeader.BasicPlaneUnits | scripts/audioAritmatic.js:100-101 | a string has one code unit per character exactly when no character lies beyond U+FFFF, and then each unit is its character's code |
| WavHeader.NonBasicCharacterBytes | scripts/audioAritmatic.js:99-103 | worked example: U+1F600, whose surrogates are 0xD83D and 0xDE00, is written as the two bytes 0x3D and 0x00 |
| WavHeader.WriteString | scripts/audioAritmatic.js:99-103 | byte `offset + i` becomes code unit `i` modulo 256, for every code unit of the string; no other byte changes |
| WavHeader.SetUint16 | scripts/audioAritmatic.js:72-74 | the two bytes at the offset become the value, least significant first; no other byte changes |
| WavHeader.SetUint32 | scripts/audioAritmatic.js:64 | the four bytes at the offset become the value, least significant first; no other byte changes |
| WavHeader.LE16Decodes | scripts/audioAritmatic.js:72-82 | a reader decodes a 16-bit field as the value modulo 2^16 |
| WavHeader.LE32Decodes | scripts/audioAritmatic.js:64-86 | a reader decodes a 32-bit field as the value modulo 2^32 |
| WavHeader.WriteRiffDescriptor | scripts/audioAritmatic.js:61-66 | bytes 0-11 become the RIFF descriptor; every other byte is unchanged |
| WavHeader.WriteFmtChunk | scripts/audioAritmatic.js:67-82 | bytes 12-35 become the `fmt ` chunk; every other byte is unchanged |
| WavHeader.WriteDataChunkHeader | scripts/audioAritmatic.js:83-86 | bytes 36-43 become the `data` chunk header; every other byte is unchanged |
| WavHeader.WriteHeader | scripts/audioAritmatic.js:61-86 | bytes 0-43 become the 44-byte header; every other byte is unchanged |
| WavHeader.WriteSamples | scripts/audioAritmatic.js:89-94 | the loop throws exactly when there is a frame and fewer channel arrays than channels; otherwise slot `k` ends holding frame `k / n`, channel `k % n`, and writes past the view are dropped |
| WavHeader.CreateWavBlob | scripts/audioAritmatic.js:53-97 | an empty channel list, or a missing channel array with at least one frame, raises a `TypeError`; otherwise the buffer is `44 + dataLength` bytes, begins with the header, and slot `k` of the Int16 view holds the sample of frame `k / n`, channel `k % n` |
| WavHeader.RiffFields | scripts/audioAritmatic.js:57-66 | bytes 0-3 are "RIFF", bytes 4-7 decode to `36 + 2 * frames`, bytes 8-11 are "WAVE" |
| WavHeader.FmtFields | scripts/audioAritmatic.js:54-82 | bytes 12-15 are "fmt "; then chunk length 16, format 1, the channel count, the sample rate, the byte rate `sampleRate * numberOfChannels * 2`, the block alignment `numberOfChannels * 2` and 16 bits per sample |
| WavHeader.FmtChunkFields | scripts/audioAritmatic.js:68-82 | the same fields at their offsets within the `fmt ` chunk |
| WavHeader.FmtFormatFields | scripts/audioAritmatic.js:68-74 | the first half of the `fmt ` chunk: the tag, chunk length 16, format 1 and the channel count modulo 2^16 |
| WavHeader.FmtRatesFields | scripts/audioAritmatic.js:76-82 | the second half of the `fmt ` chunk: the sample rate, the byte rate `sampleRate * numberOfChannels * 2`, the block alignment and 16 bits per sample, each modulo the width of its field |
| WavHeader.DataFields | scripts/audioAritmatic.js:57-86 | bytes 36-39 are "data" and bytes 40-43 decode to `2 * frames` |
| WavHeader.ChunkTags | scripts/audioAritmatic.js:62-84 | the four chunk tags as bytes |
| WavHeader.SlotOwner | scripts/audioAritmatic.js:92 | slot `i * n + c` divided by `n` gives frame `i` and channel `c` back |
| WavHeader.SlotsDistinct | scripts/audioAritmatic.js:92 | two (frame, channel) pairs share a slot exactly when they are the same pair |
| WavHeader.SamplesFit | scripts/audioAritmatic.js:57-94 | every sample's slot lies inside the `dataLength / 2` slots exactly when there is at most one channel or no frame |

## Left out

- The `ArithmeticCoding` class of `scripts/videoHuffman.js` (lines 72-141) is left out. It narrows floating-point intervals.
- The arithmetic coder for images (`ac_img.py`) is left out. It works on floating-point intervals and image and web I/O.
- The float-to-Int16 sample conversion (`scripts/audioAritmatic.js:92`) is left out. The model records which sample each slot receives, not its value.
- Decoding audio with an `AudioContext` and reading files are left out. This covers `compressAudio` and `readFile` in `scripts/audioAritmatic.js`.
- The DOM, progress bar, `FileReader`, `Blob` and download-link code of all three scripts is left out. This includes `formatTime` and `formatBytes`, which use floating point.
- `scripts/videoAritmatic.js`, `scripts/imagescript.js` and `app.py` are not part of this model. They hold no algorithm.
- WavHeader.CreateWavBlob: takes the sample rate as a natural number. The `DataView` conversion of a fractional or negative rate is not modelled.
- WavHeader.CreateWavBlob: does not model the `Blob` object. It returns the buffer's bytes and the slot owners.
- WavHeader.CreateWavBlob: does not model channel arrays shorter than `data[0]`. Their missing samples read as `undefined` and store 0, which concerns only sample values.
- AudioHuffman.BuildHuffmanTree: requires the `Map` invariant `Valid()` (no key twice, a value for exactly the keys). Every `Map` satisfies it.
- AudioHuffman.HuffmanCompressWav: never produces a header shorter than 44 bytes. Input of at most 44 bytes has an empty body, so the code builder dereferences `undefined` before the header is used. The `min(44, length)` header length therefore never reaches the output.
- AudioHuffman.CompressedBodyDecodes: takes the bit count as an input. The compressed file stores no bit count and no tree, so the body cannot be restored from the file alone.
- HuffmanCodes.HuffmanEncode: reads a byte without a code as contributing nothing, as `join` renders `undefined`. The code tables built from the data never lack a byte of it.
- The video symbols are strings (object keys) that `parseInt` turns back into bytes when decoding. The model keeps them as bytes throughout.
- The pause and timers after the video chain (`setTimeout`, `await`) are left out. They change nothing the chain computes.
