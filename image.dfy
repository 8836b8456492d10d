/**
 The image class: its dimensions, channel count, pixel buffer and message,
 and the operations that run on them once the command line has been read —
 reading an ASCII PPM file, the capacity check, hiding the message in the
 pixels, writing the pixels back as ASCII PPM, and recovering a message.

 Each method is proved against the specification functions of the modules
 Steganography and Ppm; the client methods at the end put the operations
 together in the order the flag dispatcher runs them.
 */
module ImageModel {
  import opened Bytes
  import opened Markers
  import opened Steganography
  import opened Ppm

  class Image {
    var width: int
    var height: int
    var channels: int
    /** The owned pixel buffer, width * height * channels bytes, channel values of packed pixels. */
    var data: array<byte>
    /** The message given on the command line; after the check, the framed message. */
    var message: seq<byte>

    /** The buffer holds one byte per channel of every pixel. */
    ghost predicate Valid()
      reads this
    {
      width >= 0 && height >= 0 && channels >= 0 && data.Length == width * height * channels
    }

    /** An image with no pixels yet and the message `msg`, as the command line leaves it before the file is read. */
    constructor(msg: seq<byte>)
      ensures Valid() && message == msg
      ensures width == 0 && height == 0 && channels == 0
    {
      width, height, channels := 0, 0, 0;
      data := new byte[0];
      message := msg;
    }

    /**
     The capacity check: the message becomes "starrt!" + message + "~end",
     and the answer is whether its bits fit into one bit per pixel. Nothing
     else changes.
     */
    method Check() returns (fits: bool)
      modifies this
      ensures message == Frame(old(message))
      ensures fits <==> Fits(message, width, height)
      ensures width == old(width) && height == old(height) && channels == old(channels) && data == old(data)
    {
      message := StartMark + message + EndMark;
      fits := |message| * 8 <= width * height;
    }

    /**
     The embedding loop: bit r of message byte i (r from 7 down to 0) goes
     into the least-significant bit of the byte at the running index, which
     starts at 2 and moves on by 3 after every bit.
     */
    method EmbedMessage()
      requires Valid() && channels >= 3 && Fits(message, width, height)
      modifies data
      ensures data[..] == Embedded(old(data[..]), message)
    {
      CheckedFrameInBounds(message, width, height, channels);
      ghost var d := data[..];
      var dataIndex := 2;
      var i := 0;
      while i < |message|
        invariant 0 <= i <= |message|
        invariant dataIndex == SlotIndex(8 * i)
        invariant data[..] == EmbedBits(d, message, 8 * i)
      {
        var character := message[i];
        var r := 7;
        while r >= 0
          invariant -1 <= r <= 7
          invariant dataIndex == SlotIndex(8 * i + 7 - r)
          invariant data[..] == EmbedBits(d, message, 8 * i + 7 - r)
          decreases r
        {
          var bit := BitOf(character, r);
          ghost var n := 8 * i + 7 - r;
          StreamBitOfByte(message, i, r);
          SlotUnwritten(d, message, n);
          EmbedBitsStep(d, message, n);
          ghost var before := data[..];
          if bit == 0 {
            data[dataIndex] := ClearLow(data[dataIndex]);
          }
          if bit == 1 {
            data[dataIndex] := SetLow(data[dataIndex]);
          }
          assert data[..] == before[dataIndex := SetLsb(d[dataIndex], bit)];
          dataIndex := dataIndex + 3;
          r := r - 1;
        }
        i := i + 1;
      }
    }

    /**
     Extraction: characters are assembled from the least-significant bits
     of every third byte from index 2, most significant bit first; reading
     stops after a character that completes "~end", or empties the text when
     seven or more characters hold no "starrt!". Then every "~end" and
     everything through "starrt!" are deleted. The buffer is only read.
     */
    method Decrypt() returns (msg: seq<byte>)
      requires Valid()
      ensures msg == Extract(data[..])
    {
      ghost var d := data[..];
      var output: seq<byte> := [];
      var i := 2;
      while i + 21 < width * height * channels
        invariant i == 2 + 24 * |output|
        invariant Scan(d, output) == Scan(d, [])
        decreases data.Length - i
      {
        ghost var start, read := i, output;
        var character := 0;
        var r := 7;
        while r >= 0
          invariant -1 <= r <= 7
          invariant i == start + 3 * (7 - r)
          invariant character == Gather(d, start, 7 - r) * Pow2(r + 1)
          decreases r
        {
          var bit := Lsb(data[i]);
          // bit r of `character` is still clear, so or-ing it in adds it
          assert character + bit as int * Pow2(r) == Gather(d, start, 8 - r) * Pow2(r) by {
            GatherShift(d, start, 7 - r, r);
          }
          character := character + bit as int * Pow2(r);
          i := i + 3;
          r := r - 1;
        }
        assert character as byte == DecodeChar(d, start);
        ScanStep(d, read);
        output := output + [character as byte];
        if Contains(output, EndMark) {
          break;
        }
        if |output| >= 7 && !Contains(output, StartMark) {
          output := [];
          break;
        }
      }
      assert output == Scan(d, []);
      msg := RemoveAll(output, EndMark);
      msg := RemoveThrough(msg, StartMark);
    }

    /**
     The ASCII PPM writer: the header "P3 width height 255" and a newline,
     then every channel value in decimal followed by a newline after every
     ninth value and by a space otherwise.
     */
    method WriteP3() returns (text: string)
      requires Valid()
      ensures text == P3Text(width, height, data[..])
    {
      ghost var d := data[..];
      text := "P3 " + IntToString(width) + " " + IntToString(height) + " 255\n";
      var enter := 0;
      var i := 0;
      while i < data.Length
        invariant 0 <= i <= data.Length && enter == i
        invariant text + PixelTextFrom(d, i) == P3Text(width, height, d)
      {
        ghost var before, rest := text, PixelTextFrom(d, i + 1);
        var value := NatToString(data[i] as nat);
        text := text + value;
        enter := enter + 1;
        if enter % 9 == 0 {
          text := text + "\n";
        } else {
          text := text + " ";
        }
        assert text == before + value + [Separator(i + 1)];
        PixelTextSplit(before + PixelTextFrom(d, i), before, d, i);
        i := i + 1;
      }
    }

    /**
     The ASCII PPM reader: the magic token "P3", then the header loop,
     then, when the pixels are wanted, the pixel loop. On success the
     dimensions are those of the file and the channel count is 3.
     */
    method LoadP3(s: string, loadPixels: bool) returns (ok: bool)
      modifies this
      ensures ok <==> ParseP3(s, loadPixels).Success?
      ensures ok ==> width == ParseP3(s, loadPixels).value.width && height == ParseP3(s, loadPixels).value.height
      ensures ok ==> channels == 3
      ensures ok && loadPixels ==> fresh(data) && data[..] == ParseP3(s, loadPixels).value.pixels && Valid()
      ensures !loadPixels ==> data == old(data)
      ensures message == old(message)
    {
      var first := NextToken(s, 0);
      if first.None? || first.value.text != "P3" {
        return false;
      }
      var p;
      ok, p := ReadHeader(s, first.value.next);
      if !ok {
        return false;
      }
      if loadPixels {
        MulNonnegative(width, height);
        MulNonnegative(width * height, channels);
        var bytes := width * height * channels;
        ok := ReadPixels(s, p, bytes);
      }
    }

    /**
     The header loop: tokens starting with '#' are dropped through the end
     of their line; the next three tokens must be all digits and give the
     width, the height and (ignored, setting three channels) the maximum
     value. `p` is the position after the third.
     */
    method ReadHeader(s: string, from: nat) returns (ok: bool, p: nat)
      requires from <= |s|
      modifies this
      ensures ok <==> ParseHeader(s, from, 0, 0, 0).Success?
      ensures ok ==> ParseHeader(s, from, 0, 0, 0).value == Header(width, height, p) && channels == 3
      ensures ok ==> width >= 0 && height >= 0 && p <= |s|
      ensures data == old(data) && message == old(message)
    {
      p := from;
      var threeNumbers := 0;
      while threeNumbers < 3
        invariant p <= |s| && 0 <= threeNumbers <= 3
        invariant threeNumbers >= 1 ==> 0 <= width <= IntMax
        invariant threeNumbers >= 2 ==> 0 <= height <= IntMax
        invariant threeNumbers == 3 ==> channels == 3
        invariant ParseHeader(s, from, 0, 0, 0)
               == ParseHeader(s, p, threeNumbers, if threeNumbers >= 1 then width else 0, if threeNumbers >= 2 then height else 0)
        invariant data == old(data) && message == old(message)
        decreases 3 - threeNumbers, |s| - p
      {
        var buff := NextToken(s, p);
        if buff.None? {
          return false, p;
        }
        var t := buff.value;
        if t.text[0] == '#' {
          p := SkipLine(s, t.next);
        } else if !AllDigits(t.text) {
          return false, p;
        } else {
          threeNumbers := threeNumbers + 1;
          if threeNumbers == 1 {
            var v := Stoi(t.text);
            if v.None? {
              return false, p;
            }
            width := v.value;
          } else if threeNumbers == 2 {
            var v := Stoi(t.text);
            if v.None? {
              return false, p;
            }
            height := v.value;
          } else {
            channels := 3;
          }
          p := t.next;
        }
      }
      ok := true;
    }

    /**
     The pixel loop: a fresh buffer of `bytes` values, each the stoi of the
     next token cast to unsigned char.
     */
    method ReadPixels(s: string, from: nat, bytes: int) returns (ok: bool)
      requires from <= |s| && bytes >= 0
      modifies this
      ensures ok <==> ParsePixels(s, from, bytes, []).Success?
      ensures fresh(data) && data.Length == bytes
      ensures ok ==> data[..] == ParsePixels(s, from, bytes, []).value
      ensures width == old(width) && height == old(height) && channels == old(channels) && message == old(message)
    {
      data := new byte[bytes];
      var i := 0;
      var p: nat := from;
      while i < bytes
        invariant 0 <= i <= bytes && p <= |s|
        invariant fresh(data) && data.Length == bytes
        invariant ParsePixels(s, from, bytes, []) == ParsePixels(s, p, bytes - i, data[..i])
        invariant width == old(width) && height == old(height) && channels == old(channels) && message == old(message)
      {
        var buff := NextToken(s, p);
        if buff.None? {
          return false;
        }
        var v := Stoi(buff.value.text);
        if v.None? {
          return false;
        }
        ghost var read := data[..i];
        data[i] := ToByte(v.value);
        assert data[..i + 1] == read + [ToByte(v.value)];
        p := buff.value.next;
        i := i + 1;
      }
      assert data[..bytes] == data[..];
      ok := true;
    }
  }

  /**
   What running with the encrypt flag on the P3 text `text` and message
   `msg` writes out: nothing when the file does not read or the framed
   message is too long, otherwise the pixels with the framed message hidden
   in them, written back as P3.
   */
  function HiddenText(text: string, msg: seq<byte>): Option<string>
  {
    match ParseP3(text, true)
    case Failure(_) => None
    case Success(img) =>
      if !Fits(Frame(msg), img.width, img.height) then None
      else Some(P3Text(img.width, img.height, Embedded(img.pixels, Frame(msg))))
  }

  /**
   What running with the decrypt flag on the P3 text `text` recovers:
   nothing when the file does not read or has fewer pixels than the bits of
   an empty framed message, otherwise the extracted text.
   */
  function RevealedText(text: string): Option<seq<byte>>
  {
    match ParseP3(text, true)
    case Failure(_) => None
    case Success(img) =>
      if !Fits(Frame([]), img.width, img.height) then None
      else Some(Extract(img.pixels))
  }

  /** The encrypt flag on a P3 file: read it with its pixels, run the capacity check, hide the message, write the file. */
  method Hide(text: string, msg: seq<byte>) returns (r: Option<string>)
    ensures r == HiddenText(text, msg)
  {
    var img := new Image(msg);
    var ok := img.LoadP3(text, true);
    if !ok {
      return None;
    }
    var fits := img.Check();
    if !fits {
      return None;
    }
    img.EmbedMessage();
    var written := img.WriteP3();
    return Some(written);
  }

  /** The decrypt flag on a P3 file: read it with its pixels, run the capacity check with no message, extract. */
  method Reveal(text: string) returns (r: Option<seq<byte>>)
    ensures r == RevealedText(text)
  {
    var img := new Image([]);
    var ok := img.LoadP3(text, true);
    if !ok {
      return None;
    }
    var fits := img.Check();
    if !fits {
      return None;
    }
    var msg := img.Decrypt();
    return Some(msg);
  }

  /**
   A message free of both markers, hidden in a P3 file by the encrypt flag,
   is what the decrypt flag recovers from the file written.
   */
  lemma HideThenReveal(text: string, msg: seq<byte>)
    requires HiddenText(text, msg).Some?
    requires !Contains(msg, EndMark) && !Contains(msg, StartMark)
    ensures RevealedText(HiddenText(text, msg).value) == Some(msg)
  {
    var img := ParseP3(text, true).value;
    var w, h, pixels := img.width, img.height, Embedded(img.pixels, Frame(msg));
    assert |pixels| == w * h * 3;
    WriteThenRead(w, h, pixels);
    CheckedFrameInBounds(Frame(msg), w, h, 3);
    RoundTrip(img.pixels, msg);
  }
}
