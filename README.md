# Image steganography core, modelled in Dafny

This project models the core of a command-line tool that hides a text message in an
image and recovers it, as implemented in `image.cpp`. The tool frames the message as
`"starrt!" + message + "~end"`. It writes each bit of the framed message, most
significant bit first, into the least-significant bit of every third byte of the pixel
buffer, starting at index 2 (the blue channel of packed RGB pixels). Recovery reads
those bits back as characters. It stops after the first "~end". It gives up once seven
or more characters hold no "starrt!". Then it deletes the markers. Images in the ASCII
PPM format ("P3") are read from and written to text.

The model is imperative where the program is. The class `ImageModel.Image` has the
fields of the C++ `image` struct: `width`, `height`, `channels`, the pixel buffer `data`
(an `array<byte>`) and `message`. Its methods keep the loops of the source:
- the capacity check;
- the embedding loop;
- the extraction loop;
- the P3 header and pixel loops;
- the P3 writer.

Each method is proved against a pure specification function. The properties the program
relies on are proved about those functions as lemmas.

Modules:
- `Bytes` (bytes.dfy) — the byte type, the single-bit operations of the program in
  arithmetic form, and Option/Result.
- `Markers` (markers.dfy) — the markers "starrt!" and "~end"; substring search; the two
  regular-expression replacements of extraction, written out on byte sequences:
  - `~end` deletes every occurrence, leftmost first, without overlaps;
  - `.*starrt!` deletes, line by line, everything through the last "starrt!" of the line.
- `Steganography` (steganography.dfy) — framing, the capacity test, embedding and
  extraction as functions on the buffer, and the round trip.
- `Ppm` (ppm.dfy) — the P3 reader on the file's text with a read position:
  - `>>` skips white space and takes the longest run of non-white-space characters;
  - `getline` drops through the next newline;
  - `std::stoi` and `std::to_string` are written out.
  It also holds the P3 writer and the write-then-read round trip.
- `ImageModel` (image.dfy) — the class, and two client methods `Hide` and `Reveal`.
  These run the operations in the order the flag dispatcher does: read the file, check,
  then hide or recover.

## Model

| member | source | states |
|---|---|---|
| ImageModel.Image.constructor | image.hpp:10-12 | a new image has the given message, no pixels, zero dimensions and a buffer of the right (empty) size |
| ImageModel.Image.Check | image.cpp:247-255 | the message becomes "starrt!" + old message + "~end"; the answer is true exactly when 8 bits per framed byte fit into width * height pixels; dimensions, channels and buffer are unchanged |
| ImageModel.Image.EmbedMessage | image.cpp:300-314 | the buffer afterwards is the old buffer with every bit of the message, most significant first, in the low bit of bytes 2, 5, 8, …; the nested loops keep this per bit written |
| ImageModel.Image.Decrypt | image.cpp:266-285 | the text returned is the extraction of the buffer: the characters the reading loop collects (stopping at "~end", emptied by the seven-character rejection), with every "~end" and everything through the last "starrt!" of each line deleted; the buffer is not changed |
| ImageModel.Image.WriteP3 | image.cpp:335-345 | the text written is the P3 header "P3 w h 255\n" followed by every channel value in decimal, each followed by a newline after every ninth value and by a space otherwise |
| ImageModel.Image.LoadP3 | image.cpp:175-222 | reading succeeds exactly when the P3 parse of the text succeeds; then width and height are the file's, channels is 3, and when pixels are wanted the buffer is fresh and holds the parsed channel values; without pixels the buffer is untouched |
| ImageModel.Image.ReadHeader | image.cpp:187-211 | the header loop succeeds exactly when the header parse does, leaves the width and height it parses, sets three channels and stops at the position after the third number |
| ImageModel.Image.ReadPixels | image.cpp:214-221 | the pixel loop allocates a buffer of `bytes` values and succeeds exactly when the pixel parse does, in which case the buffer holds the parsed values |
| ImageModel.Hide | image.cpp:83-104 | running the encrypt flag on a P3 text gives the written text of the pixels with the framed message embedded, or nothing when the file does not read or the message does not fit |
| ImageModel.Reveal | image.cpp:83-104 | running the decrypt flag on a P3 text gives the extracted text, or nothing when the file does not read or has fewer than 88 pixels |
| ImageModel.HideThenReveal | image.cpp:83-104 | a message holding neither marker, hidden in a P3 file by the encrypt flag, is recovered exactly by the decrypt flag from the file written |
| Bytes.Lsb | image.cpp:273 | the low bit of a byte is 0 or 1 |
| Bytes.BitOf | image.cpp:305 | a bit of a byte is 0 or 1 |
| Bytes.ClearLow | image.cpp:306-308 | and-ing with 0b11111110 leaves the low bit 0 and keeps the seven upper bits |
| Bytes.SetLow | image.cpp:309-310 | or-ing with 1 leaves the low bit 1 and keeps the seven upper bits |
| Bytes.SetLsb | image.cpp:305-311 | the written byte carries the message bit in its low bit and keeps its seven upper bits |
| Markers.RemoveAll | image.cpp:284 | deleting every "~end" never lengthens the text |
| Markers.RemoveAllAbsent | image.cpp:284 | deleting a pattern that does not occur leaves the text as it is |
| Markers.RemoveAllTrailing | image.cpp:284 | when the pattern occurs in x + pattern only at the end, deleting every occurrence gives x |
| Markers.LineEndIsFirstTerminator | image.cpp:268 | a line of the `.*` match ends at the first line terminator (newline or carriage return), which `.` does not match |
| Markers.LastEndIsLast | image.cpp:268 | the greedy `.*` match in a line ends after the last occurrence of the pattern in that line, and no occurrence in the line ends later |
| Markers.RemoveThrough | image.cpp:285 | deleting through "starrt!" never lengthens the text |
| Markers.RemoveThroughAbsent | image.cpp:285 | deleting through a pattern that does not occur leaves the text as it is |
| Markers.RemoveThroughLeading | image.cpp:285 | a text starting with the pattern and holding no other occurrence loses exactly that leading pattern |
| Markers.RemoveThroughFront | image.cpp:285 | deleting through "starrt!" from "starrt!" + x, where x holds none, gives x |
| Markers.MarkerFacts | image.cpp:249 | "starrt!" has no border and no line terminator; "~end" starts with a byte absent from "starrt!" and ends with a byte that does not occur earlier in it |
| Markers.NotBeforeTrailing | image.cpp:278 | in a framed message cut one byte short, "~end" does not occur when the message holds none |
| Steganography.Frame | image.cpp:249 | the framed message is 11 bytes longer and is "starrt!", the message, "~end" in that order |
| Steganography.EmbedBits | image.cpp:300-314 | after n bits are written, each slot 2 + 3k with k < n carries stream bit k in its low bit, every byte keeps its seven upper bits, and every byte that is not such a slot is unchanged |
| Steganography.EmbedBitsStep | image.cpp:305-312 | writing bit n changes exactly byte 2 + 3n, to the old byte with bit n in its low bit |
| Steganography.SlotUnwritten | image.cpp:305-312 | before bit n is written its slot holds the original byte |
| Steganography.StreamBitOfByte | image.cpp:302-305 | bit r of message byte j is stream bit 8j + 7 - r: most significant bit first |
| Steganography.CheckedFrameInBounds | image.cpp:250 | when the check passed and there are at least three channels, every slot the embedding writes lies inside the buffer, as do all 24 slots per framed byte |
| Steganography.Gather | image.cpp:272-276 | the value assembled from t low bits is below 2^t |
| Steganography.GatherShift | image.cpp:274 | or-ing read t into bit r of the partial character gives the value of t + 1 reads shifted by r |
| Steganography.GatherBit | image.cpp:272-276 | bit r of the value assembled from t reads is the low bit of read t - 1 - r |
| Steganography.DecodeCharBits | image.cpp:271-276 | bit r of a decoded character is the low bit of the byte at offset 3(7 - r) |
| Steganography.Decoded | image.cpp:270-277 | n characters decoded from indices 2, 26, 50, … form a text of length n |
| Steganography.EmbeddedSlot | image.cpp:305-312 | after embedding, the slot of stream bit k is inside the buffer and carries that bit |
| Steganography.DecodeSlotBit | image.cpp:272-276 | a buffer whose slot for bit r of byte j carries that bit decodes bit r of character j to it |
| Steganography.DecodeEmbeddedBit | image.cpp:272-276 | bit r of character j read from an embedded buffer is bit r of message byte j |
| Steganography.DecodeEmbedded | image.cpp:270-277 | character j read from an embedded buffer is message byte j |
| Steganography.ScanFrom | image.cpp:270-282 | from any state the reading loop can reach, it ends with nothing, or with the decoded characters up to the first that completes "~end", or with all it could read; seven or more characters read start with "starrt!" unless "~end" came earlier (when the result is nothing is fixed by ScanEmptyExactly) |
| Steganography.ScanOutcome | image.cpp:270-282 | the whole reading loop ends in such a result |
| Steganography.StartedNonEmpty | image.cpp:261-263 | once the characters read hold "starrt!", the loop never ends with nothing |
| Steganography.EmptyScan | image.cpp:270-281 | a loop that ends with nothing had no room for a character, or read seven characters that neither hold "~end" nor are "starrt!" |
| Steganography.ScanEmptyExactly | image.cpp:270-282 | the loop ends with nothing exactly when the buffer is shorter than 24 bytes or its first seven characters neither hold "~end" nor are "starrt!"; both directions |
| Steganography.FastReject | image.cpp:279-281 | when seven characters fit, none of their prefixes holds "~end" and they are not "starrt!", the loop gives nothing and extraction is empty |
| Steganography.DecodeZero | image.cpp:272-276 | every character decoded from a zero buffer is 0 |
| Steganography.AllZero | image.cpp:266-285 | a zero buffer with room for seven characters hides no text |
| Steganography.ContainsSameLength | image.cpp:279 | a text as long as "starrt!" contains it only by being it |
| Steganography.DecodedPrefix | image.cpp:277 | the first k characters of n decoded characters are the k decoded characters |
| Steganography.ScanFrame | image.cpp:270-282 | over a buffer decoding to a frame, the loop reads exactly the frame and stops at its "~end" |
| Steganography.FrameMarkers | image.cpp:249 | a frame around a message free of "~end" starts with "starrt!" and holds "~end" only at its end |
| Steganography.RoundTrip | image.cpp:266-314 | embedding the frame of a message free of both markers and then extracting gives back the message, when the buffer has 24 bytes per framed byte |
| Ppm.SkipSpace | image.cpp:189 | skipping white space stays within the text |
| Ppm.SkipSpaceStops | image.cpp:189 | skipping white space stops at a non-white-space character unless the text ends |
| Ppm.NextToken | image.cpp:189 | a token read is non-empty and the read position moves forward within the text |
| Ppm.SkipLine | image.cpp:191 | `getline` moves to just after the next newline, or to the end of the text when there is none, passing no other newline |
| Ppm.DigitRunDigits | image.cpp:193 | the characters of a digit run are digits |
| Ppm.Stoi | image.cpp:200 | a number `stoi` accepts is a 32-bit int, and is not negative unless the token starts with '-' |
| Ppm.ParseHeader | image.cpp:187-211 | a successful header has width and height in [0, 2^31 - 1] and ends within the text; a non-comment token that is not all digits fails the header (the values read are fixed by HeaderFromTokens) |
| Ppm.HeaderTokens | image.cpp:189-192 | the next n header tokens, each '#' token dropped with the rest of its line, are n tokens none of which starts with '#', and end within the text |
| Ppm.HeaderSucceeds | image.cpp:188-211 | the header loop from any count succeeds exactly when the remaining header tokens exist, are all digits, and stoi accepts those that are the width or the height |
| Ppm.HeaderValues | image.cpp:197-206 | a successful header loop takes the width and the height from the stoi of the header tokens in order and stops after the third |
| Ppm.HeaderFromTokens | image.cpp:187-211 | the header succeeds exactly when three header tokens follow, all digits with the first two accepted by stoi; then the width is the first's value, the height the second's, whatever comments lie between, and reading continues after the third |
| Ppm.ParsePixels | image.cpp:218-221 | a successful pixel loop has read exactly the requested number of values |
| Ppm.ParseP3 | image.cpp:175-222 | a first token other than "P3" fails; a successful read has three channels, width and height in the int range and, when pixels are wanted, exactly width * height * 3 channel values |
| Ppm.Tokens | image.cpp:218-219 | the next n tokens, when they exist, are n tokens |
| Ppm.PixelsSucceed | image.cpp:218-221 | the pixel loop succeeds exactly when the next n tokens exist and `stoi` accepts every one |
| Ppm.PixelValues | image.cpp:218-221 | on success the pixel loop keeps the values before it and stores each token's value modulo 256, in order |
| Ppm.DigitChar | image.cpp:339 | a decimal digit character has the digit's value |
| Ppm.NatToString | image.cpp:339 | the decimal text of a number is not empty |
| Ppm.NatToStringIsDigits | image.cpp:339 | the decimal text of a number consists of digits |
| Ppm.NatToStringDigits | image.cpp:339 | the decimal text of a number is a token of digits only |
| Ppm.DigitsValueOfString | image.cpp:339 | the digits written for v have the value v |
| Ppm.StoiOfString | image.cpp:339 | `stoi` of the decimal text of an int-sized number is that number |
| Ppm.Separator | image.cpp:340-343 | the character after each written value is white space |
| Ppm.ParseHeaderTokens | image.cpp:187-211 | a header of three digit tokens reads its width and height and stops after the third |
| Ppm.WriteThenRead | image.cpp:335-345 | the text the writer produces reads back as the same width and height, three channels and the same channel values, and also with pixels skipped |

## Left out

- Command-line parsing in the constructor and the help text (image.cpp:20-81, 106-118) are user-interface glue. `ImageModel.Hide` and `ImageModel.Reveal` model only the order in which the dispatcher runs the operations (image.cpp:83-104). The info and check messages and the combination of both flags in one run are left out.
- File metadata (`stat`, `localtime_s`, `strftime`) and the floating-point size display (image.cpp:93, 121-134) are operating-system calls and floating point.
- File-type detection from the extension (image.cpp:136-144) is not modelled: every file is taken to be ASCII PPM.
- The PNG and JPG paths through `stbi_info`, `stbi_load` and `stbi_write_png` (image.cpp:231-239, 358-361) call a library whose source is not part of this model.
- Opening and closing streams, `sleep(1)`, the interactive copy prompt and the copy's file name (image.cpp:166-173, 318-333, 351-366) are I/O. The file is given as its text and the written file is returned as a string. The message is returned, not printed.
- The `std::regex` engine is not modelled. The three patterns are written out as sequence functions: a literal search, the deletion of every literal occurrence, and the per-line deletion through the last occurrence, since `.` matches no line terminator.
- `std::stoi` throwing on a pixel token with no digits or out of the int range is modelled as the parse failing (`BadPixelToken`), the same for a width or height out of range (`NumberOutOfRange`).
- A `>>` that fails at the end of the input leaves the previous token in the buffer in the source; the model treats reading past the end as the parse failing (`EndOfInput`). The model therefore does not capture what the source does with a file cut short:
  - a header such as "P3 4 4" ending the file is accepted, the stale "4" being taken as the maximum value;
  - a pixel list that ends early is filled up with repeats of its last value;
  - a '#' token at the very end of the file makes the header loop run forever, since `getline` then fails and the stale comment is read again and again.
- ImageModel.Image.Decrypt: the source's loop condition is `i < width*height*channels`, but each character reads eight bytes up to `i + 21`, which can pass the end of the buffer; the model's condition is `i + 21 < width*height*channels`, so it never reads outside the buffer.
- ImageModel.Image.EmbedMessage: requires `channels >= 3`, since the literal stride 3 overruns a buffer with fewer channels when the check passes; P3 files always have three.
- ImageModel.Image.LoadP3: the state after a failed read is left unspecified except that the message is kept; the source prints and stops there.
- Integers are unbounded: `width*height*channels` and the capacity test `size*8 <= width*height` do not overflow in the model as 32-bit `int` arithmetic can in the source. Width and height are within the int range because `stoi` guarantees it.
- The field `bytes` of the source (image.hpp:10) is the buffer length, `data.Length`, and is not kept separately; `size`, `modified`, `filename`, `type` and the flag booleans belong to the left-out parts.
- Fields the source leaves uninitialised before the file is read are zero in the model's constructor.
- The message is a sequence of bytes. The sign of `char` does not matter: for r < 8, `c >> r & 1` is bit r of the byte's pattern, and `character | bit << r` stored in a `char` has the same pattern as the byte the model builds.
