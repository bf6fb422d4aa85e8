# LSB steganography protocol, modelled in Dafny

The tool is two C++ programs. `encode` hides a text file in the images of a
directory, and `decode` recovers it. The encoder cuts the payload into one
slice per image, at most nine images. It appends a tag to each slice. Slice 0's
tag is `"@%#/" + password + "@%#/" + "0seq###"`, and slice i's tag is
`i + "seq###"`. It turns every tagged slice into a '0'/'1' text, most
significant bit first, and writes those bits into the least significant bit
of each colour channel, pixel by pixel. The decoder reads every channel's
LSB back. It groups the bits into bytes up to the first `"###"` and reads the
sequence digit seven bytes from the end. For chunk 0 it checks the password
between the two delimiters. It stores each content in a position table,
then joins the table in index order.

The project models that protocol layer:

- `wrappers.dfy`: `Option`, `Result`.
- `byte_conv.dfy`: the integer-to-byte cast used after `stoi`.
- `bit_codec.dfy`: both `toBinary` overloads (loops) and the decoder's base-2 reading of
  a group of eight characters.
- `wire.dfy`: the byte-level format. It covers the markers, `std::string::find`, the cut
  at the first `"###"` and in-order concatenation.
- `pixels.dfy`: an `Image` class with a flat channel `array`. Its methods are
  `embedBits` and `extractChunk` with their nested loops. Around them are the
  functions that state what those loops compute.
- `tagging.dfy`: `splitAndTag`, meaning the ceiling chunk size, safe slicing and tags.
- `encoder.dfy`: the encoder's `main` after its inputs are read. That is the
  image-count check, the password confirmation, and the per-image capacity check
  followed by embedding.
- `decoder.dfy`: the decoder's `main` after its inputs are read. That is the tag
  parsing, the password check, the position table and the final join. The table
  pass is modelled both as the in-place loop and as a function over the list
  of extracted streams.
- `round_trip.dfy`: the two programs against each other. It shows that what
  `encode` writes, `decode` reads back, in any file order, and only under the
  right password.

Bytes are `bv8`. A bit text is a `seq<char>` of '0'/'1', as in the source.
An image is `rows`, `cols` and a buffer of `rows * cols * 3` channels. The
buffer is stored row after row, and within a pixel channel 0, 1, 2; channel
`(r, c, ch)` sits at `(r * cols + c) * 3 + ch`. A run's inputs are
parameters: the payload bytes, the passwords typed and the list of images
in the order the directory listing gives them.

## Model

| member | source | states |
|---|---|---|
| BitCodec.ToBinaryByte | encode.cpp:16-22 | the eight-character text has character k equal to bit 7 - k of the byte (ByteBits: length 8, only '0'/'1') |
| BitCodec.FromBinaryByteBits | encode.cpp:16-22 | reading the encoding of a byte in base 2 gives the byte back, so stoi(…, 2) undoes toBinary |
| BitCodec.FromBinaryInjective | decode.cpp:54-55 | two '0'/'1' texts of one length with the same base-2 value are the same text |
| BitCodec.GroupByteValue | decode.cpp:55 | the byte cast from stoi(group, nullptr, 2) has the group's base-2 value, which is below 256 for eight characters |
| BitCodec.ByteBitsOfGroup | decode.cpp:54-55 | encoding the byte an eight-character '0'/'1' group stands for gives the group back, so toBinary also undoes stoi(…, 2): the two are inverse |
| BitCodec.ToBinaryString | encode.cpp:23-30 | the result is the encodings of the bytes in order, 8 * \|s\| characters of '0'/'1' |
| BitCodec.StringBitsGroup | encode.cpp:23-30 | group j of eight characters of a string's encoding is the encoding of byte j |
| BitCodec.BytesOfStringBits | decode.cpp:51-56 | grouping a string's encoding into bytes with stoi(…, 2) gives back the string |
| BitCodec.StringBitsOfBytesPrefix | decode.cpp:52-56 | encoding the first m bytes decoded from a '0'/'1' text gives its first 8 * m characters |
| BitCodec.StringBitsOfBytes | decode.cpp:52-56 | encoding the bytes decoded from a '0'/'1' text gives the text back up to its last complete group of eight, which is all the grouping loop reads |
| Wire.Find | decode.cpp:105-106 | find(pat, from) returns the first index at or after from where pat occurs, and npos exactly when there is none |
| Wire.CutAtTerminator | decode.cpp:57-58 | the bytes kept are a prefix that ends at its first "###" or, when no prefix ends in "###", all of the bytes |
| Wire.CutAtTerminatorPrefix | decode.cpp:57-58 | a stream that starts with s, where s ends at its first "###", is cut to exactly s whatever follows |
| Pixels.Image.EmbedBits | encode.cpp:47-61 | the new buffer is Embedded(old buffer, bits): channel k < \|bits\| has its least significant bit set to bit k and its upper seven bits kept, every other channel is unchanged |
| Pixels.EmbedStep | encode.cpp:58 | writing (p & 0xFE) \| bit into channel idx turns the buffer embedded with idx bits into the buffer embedded with idx + 1 bits |
| Pixels.EmbedAllFitting | encode.cpp:52-56 | stopping when the channels run out is the same as embedding every bit, because bits past the last channel have nowhere to go |
| Pixels.Image.ScanLsbs | decode.cpp:40-49 | the bit text is the least significant bit of every channel in scan order, rows * cols * 3 characters |
| Pixels.GroupUntilTerminator | decode.cpp:51-60 | the grouping loop with its early break returns the decoded bytes cut after their first "###" |
| Pixels.GroupStep | decode.cpp:54-58 | one more group extends the bytes produced so far by the next decoded byte, and the cut either stops there or lies further on |
| Pixels.Image.ExtractChunk | decode.cpp:38-61 | extraction returns Extracted(buffer), and at most floor(rows * cols * 3 / 8) bytes |
| Pixels.EmbedThenExtract | encode.cpp:47-61 | if s ends at its first "###" and 8 * \|s\| fits the channels, extracting after embedding toBinary(s) gives s |
| Pixels.BytesOfEncodedPrefix | decode.cpp:52-56 | a bit text that starts with the encoding of s decodes to bytes that start with s |
| Tagging.ChunkSize | encode.cpp:68 | the chunk size is the exact ceiling of len / parts: chunk * parts >= len > (chunk - 1) * parts |
| Tagging.Slice | encode.cpp:75-80 | slice i is at most chunk bytes long, and empty once i * chunk has passed the end of the payload |
| Tagging.SliceWindow | encode.cpp:76-81 | slice i is the payload between the bounds min(i * chunk, len) and min((i + 1) * chunk, len) |
| Tagging.SlicesPrefix | encode.cpp:72-81 | the first k slices joined are the payload up to min(k * chunk, len) |
| Tagging.SlicesCover | encode.cpp:68-81 | the slices joined in order give back the payload |
| Tagging.DecimalString | encode.cpp:84-86 | to_string(i) renders the digits of i: every byte is one of '0'..'9', their decimal value is i, there is one digit exactly when i < 10, and a longer rendering has no leading zero |
| Tagging.Tag | encode.cpp:83-86 | a tag is at least seven bytes; for a single-digit index it is its header (the bracketed password for chunk 0, nothing otherwise), the digit and "seq###", so it ends with digit, 's', 'e', 'q', '#', '#', '#' |
| Tagging.SplitAndTag | encode.cpp:64-91 | the result has parts elements, and element i is toBinary(slice i + tag i) |
| Encoder.FirstTooBig | encode.cpp:158-164 | the index found is the first image whose chunk has more bits than rows * cols * 3, or the image count when every chunk fits |
| Encoder.EmbedAll | encode.cpp:148-170 | images before the first oversized one are embedded with their chunk and the rest are untouched; the run reports that image's index |
| Encoder.Encode | encode.cpp:120-166 | no images, too many images and a mismatched confirmation are refused before any image changes; otherwise the result and every image's new buffer are as the capacity check and embedding determine |
| Decoder.SeqNumber | decode.cpp:99-100 | seqChar - '0' for an ASCII byte, and negative for a byte above 0x7F (a signed char) |
| Decoder.ParseHeader | decode.cpp:104-120 | an accepted header is content + "@%#/" + pwd + "@%#/" + rest; the only refusals are MalformedHeader and PasswordNotValid; a header without the delimiter is malformed |
| Decoder.SplitAtDelimiters | decode.cpp:105-112 | where the two searches stop the text is a delimiter-free prefix, "@%#/", a delimiter-free middle, "@%#/" and the rest |
| Decoder.HeaderShape | decode.cpp:104-120 | accepted content and password hold no delimiter; a refused password is the delimiter-free text between the first two delimiters and differs from the one entered |
| Decoder.FindBothDelimiters | decode.cpp:105-106 | in c + "@%#/" + q + "@%#/" + rest with c and q free of the delimiter, the two searches stop at the two delimiters around q |
| Decoder.ParseDelimited | decode.cpp:104-120 | c + "@%#/" + q + "@%#/" + rest with c and q free of the delimiter is accepted with content c exactly when the password entered is q, and refused as PasswordNotValid otherwise |
| Decoder.MalformedIffUnsplit | decode.cpp:104-111 | a header is malformed exactly when it cannot be split as c + "@%#/" + q + "@%#/" + rest with c and q free of the delimiter |
| Decoder.ParseStream | decode.cpp:96-125 | a stream is skipped exactly when it is shorter than 7; otherwise the sequence is read at size - 7, a non-zero sequence gets exactly (sequence, stream minus its 7-byte tail), and sequence 0 gets exactly the header check's outcome on the stream minus its tail |
| Decoder.ShortStreamSkipped | decode.cpp:97-98 | a stream shorter than 7 bytes changes no slot of the table |
| Decoder.JoinPieces | decode.cpp:129-131 | the result is the table's entries joined in index order |
| Decoder.FillOkIffAllAccepted | decode.cpp:87-126 | the run ends in error exactly when some stream is refused or names a slot outside the table, wherever that stream comes |
| Decoder.FillOnlyRefusal | decode.cpp:87-126 | when the only refusal any stream can meet is e, a run that fails, fails with e |
| Decoder.FillSlots | decode.cpp:120-124 | slot k of the finished table holds the content of the last stream tagged k, or "" when none is |
| Decoder.FillInOrder | decode.cpp:87-126 | streams tagged with their own positions, under an accepted password, fill the table slot by slot |
| Decoder.OrderIndependent | decode.cpp:85-131 | any reordering of consistent streams fails alike or gives the same payload, so file enumeration order does not matter |
| Decoder.Decode | decode.cpp:77-131 | the loop over images returns DecodeStreams of the extracted streams: the first fatal error it meets, or the table joined in order |
| RoundTrip.TaggedSliceEndsAtTag | encode.cpp:83-86 | when neither slice nor password holds "###", the first "###" of a tagged slice is the one that ends its tag |
| RoundTrip.ParseTaggedSlice | decode.cpp:96-125 | parsing a tagged slice i < 10 gives back (i, slice), or PasswordNotValid for chunk 0 under a wrong password |
| RoundTrip.EncodeThenDecode | decode.cpp:85-131 | what the encoder puts in 1..9 images that fit decodes to the payload under the right password and to PasswordNotValid under any other |
| RoundTrip.EncodedStreamsConsistent | decode.cpp:120-124 | the encoded images never disagree about a slot |
| RoundTrip.EncodedOnlyRefusal | decode.cpp:96-125 | each encoded image, in any order, is accepted into the table or refused as PasswordNotValid |
| RoundTrip.WrongPasswordAnyOrder | decode.cpp:72-131 | under a wrong password the encoded images, read in any order, are refused as PasswordNotValid |
| RoundTrip.EncodeThenDecodeAnyOrder | decode.cpp:72-131 | the encoded images read in any order decode to the payload under the right password, and to PasswordNotValid under any other |
| RoundTrip.HideThenRecover | encode.cpp:120-170 | an encoder run over images that fit succeeds, and a decoder run over the same images then recovers the payload or refuses the password |

## Left out

- `getPassword` in both programs: the terminal echo control and line reading are I/O. The passwords are parameters.
- Directory enumeration, `cv::imread`/`cv::imwrite`, the text files and the output names: these are library I/O. A run takes the payload, the passwords and the list of decoded images. The `img.empty()` read failure (encode.cpp:152-156, decode.cpp:90-94) is part of that I/O and is not modelled.
- Console messages: presentation only, so only the outcome of each check is kept.
- `std::ceil` over a `double` (encode.cpp:68) is replaced by an exact integer ceiling. For payload sizes where the double loses precision the two could differ.
- The out-of-range write `pieces[seq]` (decode.cpp:120, 124) is undefined behaviour in C++. Here it is the explicit error `SeqOutOfRange`, reached when seqChar - '0' is negative or not below the image count. A non-digit byte whose value is in range, such as ':' in a run of eleven or more images, is stored as a piece, as in the source.
- Decoder.SeqNumber: plain `char` is taken to be signed, so a byte above 0x7F gives a negative sequence number.
- Encoder.Encode: when a later image is too small, the images before it have already been embedded. The source also writes them out before it fails, so the model follows the code rather than an all-or-nothing reading.
- RoundTrip.EncodeThenDecode: the round trip needs a payload and password that hold neither "###" nor "@%#/". If they held one, the decoder would stop early or split the header in the wrong place, as the source does.
- RoundTrip.HideThenRecover: the decoder run reads the same `Image` buffers the encoder wrote into. This takes the PNG written by `cv::imwrite` (encode.cpp:168) to read back with every channel unchanged, which holds because PNG is lossless; the file round trip itself is I/O and is not modelled.
- The decoder's own `toBinary` (decode.cpp:15-21) is not used by that program and is not modelled separately.
