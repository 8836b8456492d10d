/**
 The ASCII PPM ("P3") format as the image class reads and writes it.

 Reading works on the file's text with a read position, as a stream does:
 a token is what `>>` into a string extracts (white space skipped, then the
 longest run of non-white-space characters), and a comment is dropped by
 reading up to and including the next newline, as `getline` does. Writing
 produces the header "P3 w h 255" and a newline, then every channel value in
 decimal, each followed by a newline when its 1-based position is a multiple
 of 9 and by a space otherwise.
 */
module Ppm {
  import opened Bytes

  /** The white space that `>>` skips: space, tab, newline, vertical tab, form feed, carriage return. */
  predicate IsSpace(c: char)
  {
    c == ' ' || ('\t' <= c <= '\r')
  }

  /** The first position at or after `p` that does not hold white space. */
  function SkipSpace(s: string, p: nat): (q: nat)
    requires p <= |s|
    ensures p <= q <= |s|
    decreases |s| - p
  {
    if p < |s| && IsSpace(s[p]) then SkipSpace(s, p + 1) else p
  }

  /** The first position at or after `p` that holds white space, or |s|. */
  function TokenEnd(s: string, p: nat): (q: nat)
    requires p <= |s|
    ensures p <= q <= |s|
    decreases |s| - p
  {
    if p < |s| && !IsSpace(s[p]) then TokenEnd(s, p + 1) else p
  }

  /** A token read from the text, and the position just after it. */
  datatype Token = Token(text: string, next: nat)

  /** What `>>` into a string reads from position `p`: None at end of input. */
  function NextToken(s: string, p: nat): (r: Option<Token>)
    requires p <= |s|
    ensures r.Some? ==> p < r.value.next <= |s| && |r.value.text| > 0
  {
    var a := SkipSpace(s, p);
    if a == |s| then None
    else
      SkipSpaceStops(s, p);
      var b := TokenEnd(s, a);
      Some(Token(s[a..b], b))
  }

  /** SkipSpace stops at a character that is not white space, unless the text ends. */
  lemma {:induction false} SkipSpaceStops(s: string, p: nat)
    requires p <= |s|
    ensures SkipSpace(s, p) < |s| ==> !IsSpace(s[SkipSpace(s, p)])
    ensures SkipSpace(s, p) < |s| ==> TokenEnd(s, SkipSpace(s, p)) > SkipSpace(s, p)
    decreases |s| - p
  {
    if p < |s| && IsSpace(s[p]) {
      SkipSpaceStops(s, p + 1);
    }
  }

  /** What `getline` leaves: the position just after the next newline, or |s|. */
  function SkipLine(s: string, p: nat): (q: nat)
    requires p <= |s|
    ensures p <= q <= |s|
    ensures q == |s| || (q > p && s[q - 1] == '\n')
    ensures forall i :: p <= i < q - 1 ==> s[i] != '\n'
    decreases |s| - p
  {
    if p == |s| then p else if s[p] == '\n' then p + 1 else SkipLine(s, p + 1)
  }

  predicate IsDigit(c: char)
  {
    '0' <= c <= '9'
  }

  /** The end of the run of digits that starts at `i`. */
  function DigitRunEnd(t: string, i: nat): (e: nat)
    requires i <= |t|
    ensures i <= e <= |t|
    decreases |t| - i
  {
    if i < |t| && IsDigit(t[i]) then DigitRunEnd(t, i + 1) else i
  }

  /** The token matches the regular expression [0-9]+ as a whole: its digit run from 0 is all of it. */
  predicate AllDigits(t: string)
  {
    |t| > 0 && DigitRunEnd(t, 0) == |t|
  }

  /** The digits of a run are digits. */
  lemma {:induction false} DigitRunDigits(t: string, i: nat)
    requires i <= |t|
    ensures forall j :: i <= j < DigitRunEnd(t, i) ==> IsDigit(t[j])
    decreases |t| - i
  {
    if i < |t| && IsDigit(t[i]) {
      DigitRunDigits(t, i + 1);
    }
  }

  /** A run of digits reaching the end of the text ends there. */
  lemma {:induction false} DigitRunToEnd(t: string, i: nat)
    requires i <= |t| && forall j :: i <= j < |t| ==> IsDigit(t[j])
    ensures DigitRunEnd(t, i) == |t|
    decreases |t| - i
  {
    if i < |t| {
      DigitRunToEnd(t, i + 1);
    }
  }

  /** The value of a decimal digit (0 for any other character). */
  function DigitValue(c: char): (d: nat)
    ensures d < 10
  {
    if IsDigit(c) then c as int - '0' as int else 0
  }

  /** The value of the decimal digits t[lo..hi]. */
  function RunValue(t: string, lo: nat, hi: nat): nat
    requires lo <= hi <= |t|
    decreases hi - lo
  {
    if hi == lo then 0 else RunValue(t, lo, hi - 1) * 10 + DigitValue(t[hi - 1])
  }

  const IntMin: int := -0x8000_0000
  const IntMax: int := 0x7FFF_FFFF

  /**
   `std::stoi` on a token: an optional sign and the leading run of decimal
   digits, ignoring what follows. None where `stoi` throws: no digit at all
   (invalid_argument), or a value outside the 32-bit int range (out_of_range).
   */
  function Stoi(t: string): (r: Option<int>)
    ensures r.Some? ==> IntMin <= r.value <= IntMax
    ensures r.Some? && !(|t| > 0 && t[0] == '-') ==> r.value >= 0
  {
    var negative := |t| > 0 && t[0] == '-';
    var start := if |t| > 0 && (t[0] == '-' || t[0] == '+') then 1 else 0;
    var end := DigitRunEnd(t, start);
    if end == start then None
    else
      var magnitude: int := RunValue(t, start, end);
      var v: int := if negative then -magnitude else magnitude;
      if IntMin <= v <= IntMax then Some(v) else None
  }

  /** The ways reading a P3 file fails. */
  datatype ParseError =
    | NotP3            // the first token is not exactly "P3"
    | BadHeaderToken   // a header token that is neither a comment nor all digits
    | NumberOutOfRange // a width or height that does not fit an int
    | BadPixelToken    // a channel value that stoi rejects
    | EndOfInput       // the text ends before a token that is needed

  /** The header as read: width, height, and the position after the third number. */
  datatype Header = Header(width: int, height: int, next: nat)

  /** The image as read: dimensions, the channel count, and the channel values (empty unless requested). */
  datatype P3Image = P3Image(width: int, height: int, channels: int, pixels: seq<byte>)

  /**
   The header loop, continued from position `p` after `count` of the three
   numbers: comments are skipped through the end of their line; the first
   number is the width, the second the height, the third (the maximum
   value) is checked for digits only.
   */
  function ParseHeader(s: string, p: nat, count: nat, w: int, h: int): (r: Result<Header, ParseError>)
    requires p <= |s| && count <= 3
    requires 0 <= w <= IntMax && 0 <= h <= IntMax
    ensures r.Success? ==> 0 <= r.value.width <= IntMax && 0 <= r.value.height <= IntMax && p <= r.value.next <= |s|
    ensures count < 3 && NextToken(s, p).Some? && NextToken(s, p).value.text[0] != '#' && !AllDigits(NextToken(s, p).value.text)
            ==> r == Failure(BadHeaderToken)
    decreases |s| - p
  {
    if count == 3 then Success(Header(w, h, p))
    else
      match NextToken(s, p)
      case None => Failure(EndOfInput)
      case Some(t) =>
        if t.text[0] == '#' then ParseHeader(s, SkipLine(s, t.next), count, w, h)
        else if !AllDigits(t.text) then Failure(BadHeaderToken)
        else if count == 2 then ParseHeader(s, t.next, 3, w, h)
        else
          match Stoi(t.text)
          case None => Failure(NumberOutOfRange)
          case Some(v) =>
            if count == 0 then ParseHeader(s, t.next, 1, v, h) else ParseHeader(s, t.next, 2, w, v)
  }

  /**
   The pixel loop, continued from position `p` with `remaining` values to
   read after the values `acc`: each token becomes `(unsigned char) stoi(token)`.
   */
  function ParsePixels(s: string, p: nat, remaining: nat, acc: seq<byte>): (r: Result<seq<byte>, ParseError>)
    requires p <= |s|
    ensures r.Success? ==> |r.value| == |acc| + remaining
    decreases remaining
  {
    if remaining == 0 then Success(acc)
    else
      match NextToken(s, p)
      case None => Failure(EndOfInput)
      case Some(t) =>
        match Stoi(t.text)
        case None => Failure(BadPixelToken)
        case Some(v) =>
          ParsePixels(s, t.next, remaining - 1, acc + [ToByte(v)])
  }

  /**
   Reading a P3 file: the magic token, the header, and, when the channel
   values are wanted, width * height * 3 of them. The channel count is 3
   whatever maximum value the header gives.
   */
  function ParseP3(s: string, loadPixels: bool): (r: Result<P3Image, ParseError>)
    ensures NextToken(s, 0).Some? && NextToken(s, 0).value.text != "P3" ==> r == Failure(NotP3)
    ensures r.Success? ==> r.value.channels == 3 && 0 <= r.value.width <= IntMax && 0 <= r.value.height <= IntMax
    ensures r.Success? && loadPixels ==> |r.value.pixels| == r.value.width * r.value.height * 3
    ensures r.Success? && !loadPixels ==> r.value.pixels == []
  {
    match NextToken(s, 0)
    case None => Failure(EndOfInput)
    case Some(t) =>
      if t.text != "P3" then Failure(NotP3)
      else
        match ParseHeader(s, t.next, 0, 0, 0)
        case Failure(e) => Failure(e)
        case Success(hd) =>
          if !loadPixels then Success(P3Image(hd.width, hd.height, 3, []))
          else
            MulNonnegative(hd.width, hd.height);
            match ParsePixels(s, hd.next, hd.width * hd.height * 3, [])
            case Failure(e) => Failure(e)
            case Success(pixels) => Success(P3Image(hd.width, hd.height, 3, pixels))
  }

  /** The next `n` tokens from position `p`, or None when the text ends before them. */
  function Tokens(s: string, p: nat, n: nat): (r: Option<seq<string>>)
    requires p <= |s|
    ensures r.Some? ==> |r.value| == n
    decreases n
  {
    if n == 0 then Some([])
    else
      match NextToken(s, p)
      case None => None
      case Some(t) =>
        match Tokens(s, t.next, n - 1)
        case None => None
        case Some(ts) => Some([t.text] + ts)
  }

  /** Every token of `ts` is accepted by stoi. */
  predicate AllNumbers(ts: seq<string>)
  {
    forall i :: 0 <= i < |ts| ==> Stoi(ts[i]).Some?
  }

  /** The pixel loop succeeds exactly when the next `n` tokens exist and stoi accepts each of them. */
  lemma {:induction false} PixelsSucceed(s: string, p: nat, n: nat, acc: seq<byte>)
    requires p <= |s|
    ensures ParsePixels(s, p, n, acc).Success? <==> Tokens(s, p, n).Some? && AllNumbers(Tokens(s, p, n).value)
    decreases n
  {
    if n > 0 {
      match NextToken(s, p)
      case None =>
      case Some(t) =>
        var v := Stoi(t.text);
        if v.Some? {
          PixelsSucceed(s, t.next, n - 1, acc + [ToByte(v.value)]);
          var rest := Tokens(s, t.next, n - 1);
          if rest.Some? {
            var ts := [t.text] + rest.value;
            assert forall i :: 0 <= i < n - 1 ==> rest.value[i] == ts[i + 1];
          }
        } else if Tokens(s, p, n).Some? {
          assert Tokens(s, p, n).value[0] == t.text;
        }
    }
  }

  /**
   When the pixel loop succeeds on the tokens `ts`, it has kept the values
   read before and appended, in order, each token's value modulo 256.
   */
  lemma {:induction false} PixelValues(s: string, p: nat, n: nat, acc: seq<byte>, r: seq<byte>, ts: seq<string>)
    requires p <= |s| && ParsePixels(s, p, n, acc) == Success(r) && Tokens(s, p, n) == Some(ts)
    ensures |r| == |acc| + n && r[..|acc|] == acc
    ensures forall i :: 0 <= i < n ==> Stoi(ts[i]).Some? && r[|acc| + i] == ToByte(Stoi(ts[i]).value)
    decreases n
  {
    if n > 0 {
      var t := NextToken(s, p).value;
      var v := Stoi(t.text).value;
      var acc' := acc + [ToByte(v)];
      var rest := ts[1..];
      assert ts == [t.text] + rest;
      PixelValues(s, t.next, n - 1, acc', r, rest);
      forall i | 0 <= i < n
        ensures Stoi(ts[i]).Some? && r[|acc| + i] == ToByte(Stoi(ts[i]).value)
      {
        if i > 0 {
          assert ts[i] == rest[i - 1] && |acc| + i == |acc'| + (i - 1);
        } else {
          assert r[|acc|] == r[..|acc'|][|acc|];
        }
      }
      assert r[..|acc|] == r[..|acc'|][..|acc|];
    }
  }

  /**
   The next `n` header tokens from position `p` that are not comments, and
   the position after the last of them: a token starting with '#' is
   dropped together with the rest of its line. None when the text ends first.
   */
  function HeaderTokens(s: string, p: nat, n: nat): (r: Option<(seq<string>, nat)>)
    requires p <= |s|
    ensures r.Some? ==> |r.value.0| == n && p <= r.value.1 <= |s|
    ensures r.Some? ==> forall i :: 0 <= i < n ==> |r.value.0[i]| > 0 && r.value.0[i][0] != '#'
    decreases |s| - p
  {
    if n == 0 then Some(([], p))
    else
      match NextToken(s, p)
      case None => None
      case Some(t) =>
        if t.text[0] == '#' then HeaderTokens(s, SkipLine(s, t.next), n)
        else
          match HeaderTokens(s, t.next, n - 1)
          case None => None
          case Some(rest) => Some(([t.text] + rest.0, rest.1))
  }

  /**
   The header tokens `ts`, numbers `c` .. 2 of the header, are what the
   header loop accepts: each is all digits, and stoi accepts the width and
   the height.
   */
  predicate HeaderNumbers(ts: seq<string>, c: nat)
  {
    forall i :: 0 <= i < |ts| ==> AllDigits(ts[i]) && (c + i < 2 ==> Stoi(ts[i]).Some?)
  }

  /** A number token at `p` heads the header tokens there, before those that follow it. */
  lemma HeaderTokensNumber(s: string, p: nat, n: nat, t: Token)
    requires p <= |s| && n > 0 && NextToken(s, p) == Some(t) && t.text[0] != '#'
    ensures HeaderTokens(s, p, n).Some? <==> HeaderTokens(s, t.next, n - 1).Some?
    ensures HeaderTokens(s, p, n).Some? ==>
      HeaderTokens(s, p, n).value == ([t.text] + HeaderTokens(s, t.next, n - 1).value.0, HeaderTokens(s, t.next, n - 1).value.1)
  {
  }

  /** The numbers check splits into the first token and the rest. */
  lemma HeaderNumbersCons(t: string, rest: seq<string>, c: nat)
    ensures HeaderNumbers([t] + rest, c) <==> AllDigits(t) && (c < 2 ==> Stoi(t).Some?) && HeaderNumbers(rest, c + 1)
  {
    var ts := [t] + rest;
    assert ts[0] == t;
    assert forall i :: 0 <= i < |rest| ==> rest[i] == ts[i + 1];
    if AllDigits(t) && (c < 2 ==> Stoi(t).Some?) && HeaderNumbers(rest, c + 1) {
      forall i | 0 <= i < |ts|
        ensures AllDigits(ts[i]) && (c + i < 2 ==> Stoi(ts[i]).Some?)
      {
        if i > 0 {
          assert ts[i] == rest[i - 1];
        }
      }
    }
  }

  /** The header loop from `c` numbers on succeeds exactly when the remaining header tokens exist and are accepted numbers. */
  lemma {:induction false} HeaderSucceeds(s: string, p: nat, c: nat, w: int, h: int)
    requires p <= |s| && c <= 3 && 0 <= w <= IntMax && 0 <= h <= IntMax
    ensures ParseHeader(s, p, c, w, h).Success?
        <==> HeaderTokens(s, p, 3 - c).Some? && HeaderNumbers(HeaderTokens(s, p, 3 - c).value.0, c)
    decreases |s| - p
  {
    if c < 3 && NextToken(s, p).Some? {
      var t := NextToken(s, p).value;
      if t.text[0] == '#' {
        HeaderSucceeds(s, SkipLine(s, t.next), c, w, h);
      } else {
        HeaderTokensNumber(s, p, 3 - c, t);
        var rest := HeaderTokens(s, t.next, 2 - c);
        if rest.Some? {
          HeaderNumbersCons(t.text, rest.value.0, c);
        }
        if AllDigits(t.text) && (c == 2 || Stoi(t.text).Some?) {
          DigitsAreToken(t.text);
          var v := Stoi(t.text);
          var w', h' := if c == 0 then v.value else w, if c == 1 then v.value else h;
          assert ParseHeader(s, p, c, w, h) == ParseHeader(s, t.next, c + 1, w', h');
          HeaderSucceeds(s, t.next, c + 1, w', h');
        }
      }
    }
  }

  /** A digit token, accepted by stoi when it is the width or the height, moves the header loop on by one number. */
  lemma HeaderStep(s: string, p: nat, c: nat, w: int, h: int, t: Token)
    requires p <= |s| && c < 3 && 0 <= w <= IntMax && 0 <= h <= IntMax
    requires NextToken(s, p) == Some(t) && t.text[0] != '#' && AllDigits(t.text)
    requires c < 2 ==> Stoi(t.text).Some?
    ensures c < 2 ==> 0 <= Stoi(t.text).value <= IntMax
    ensures ParseHeader(s, p, c, w, h)
         == ParseHeader(s, t.next, c + 1, if c == 0 then Stoi(t.text).value else w, if c == 1 then Stoi(t.text).value else h)
  {
    DigitsAreToken(t.text);
  }

  /**
   A successful header loop from `c` numbers on takes the width and the
   height it has not read yet from the stoi of the next header tokens, in
   that order, and stops after the last of them.
   */
  lemma {:induction false} HeaderValues(s: string, p: nat, c: nat, w: int, h: int, hd: Header, ts: seq<string>, e: nat)
    requires p <= |s| && c <= 3 && 0 <= w <= IntMax && 0 <= h <= IntMax
    requires ParseHeader(s, p, c, w, h) == Success(hd) && HeaderTokens(s, p, 3 - c) == Some((ts, e))
    ensures hd.next == e
    ensures c == 0 ==> Stoi(ts[0]).Some? && hd.width == Stoi(ts[0]).value && Stoi(ts[1]).Some? && hd.height == Stoi(ts[1]).value
    ensures c == 1 ==> hd.width == w && Stoi(ts[0]).Some? && hd.height == Stoi(ts[0]).value
    ensures c >= 2 ==> hd.width == w && hd.height == h
    decreases |s| - p
  {
    if c < 3 {
      var t := NextToken(s, p).value;
      if t.text[0] == '#' {
        HeaderValues(s, SkipLine(s, t.next), c, w, h, hd, ts, e);
      } else {
        HeaderTokensNumber(s, p, 3 - c, t);
        var rest := HeaderTokens(s, t.next, 2 - c).value;
        assert ts == [t.text] + rest.0 && e == rest.1;
        assert AllDigits(t.text);
        var v := Stoi(t.text);
        assert c < 2 ==> v.Some?;
        HeaderStep(s, p, c, w, h, t);
        var w', h' := if c == 0 then v.value else w, if c == 1 then v.value else h;
        HeaderValues(s, t.next, c + 1, w', h', hd, rest.0, rest.1);
        assert c == 0 ==> ts[1] == rest.0[0];
      }
    }
  }

  /**
   The header loop succeeds exactly when three header tokens follow, all
   digits, with the first two accepted by stoi; the width and the height are
   then the values of the first two, whatever comments come between them,
   and the loop stops after the third.
   */
  lemma HeaderFromTokens(s: string, p: nat)
    requires p <= |s|
    ensures ParseHeader(s, p, 0, 0, 0).Success? <==> HeaderTokens(s, p, 3).Some? && HeaderNumbers(HeaderTokens(s, p, 3).value.0, 0)
    ensures ParseHeader(s, p, 0, 0, 0).Success? ==>
      var ts := HeaderTokens(s, p, 3).value.0;
      Stoi(ts[0]).Some? && Stoi(ts[1]).Some?
      && ParseHeader(s, p, 0, 0, 0).value == Header(Stoi(ts[0]).value, Stoi(ts[1]).value, HeaderTokens(s, p, 3).value.1)
  {
    HeaderSucceeds(s, p, 0, 0, 0);
    if ParseHeader(s, p, 0, 0, 0).Success? {
      var r := HeaderTokens(s, p, 3).value;
      HeaderValues(s, p, 0, 0, 0, ParseHeader(s, p, 0, 0, 0).value, r.0, r.1);
    }
  }

  /** The decimal digit of a value below ten. */
  function DigitChar(d: nat): (c: char)
    requires d < 10
    ensures IsDigit(c) && c as int - '0' as int == d
  {
    ('0' as int + d) as char
  }

  /** `std::to_string` of a natural number: its decimal digits, no leading zeros. */
  function NatToString(v: nat): (t: string)
    ensures |t| > 0
    decreases v
  {
    if v < 10 then [DigitChar(v)] else NatToString(v / 10) + [DigitChar(v % 10)]
  }

  /** `std::to_string` of an int. */
  function IntToString(v: int): string
  {
    if v < 0 then "-" + NatToString(-v) else NatToString(v)
  }

  /** The character written after the k-th value (counting from 1). */
  function Separator(k: nat): (c: char)
    ensures IsSpace(c)
  {
    if k % 9 == 0 then '\n' else ' '
  }

  /** The channel values from the (k+1)-th on, as the writer emits them. */
  function PixelTextFrom(pixels: seq<byte>, k: nat): string
    requires k <= |pixels|
    decreases |pixels| - k
  {
    if k == |pixels| then []
    else NatToString(pixels[k] as nat) + [Separator(k + 1)] + PixelTextFrom(pixels, k + 1)
  }

  /** The channel values as the writer emits them. */
  function PixelText(pixels: seq<byte>): string
  {
    PixelTextFrom(pixels, 0)
  }

  /** The header the writer emits. */
  function P3Header(w: int, h: int): string
  {
    "P3 " + IntToString(w) + " " + IntToString(h) + " 255\n"
  }

  /** The whole text of a written P3 file. */
  function P3Text(w: int, h: int, pixels: seq<byte>): string
  {
    P3Header(w, h) + PixelText(pixels)
  }

  /** No white space occurs in `t`. */
  predicate NoSpace(t: string)
  {
    forall i :: 0 <= i < |t| ==> !IsSpace(t[i])
  }

  /** Skipping white space from `p` reaches `q` when [p, q) is white space and s[q] is not. */
  lemma {:induction false} SkipSpaceTo(s: string, p: nat, q: nat)
    requires p <= q < |s| && !IsSpace(s[q])
    requires forall j :: p <= j < q ==> IsSpace(s[j])
    ensures SkipSpace(s, p) == q
    decreases q - p
  {
    if p < q {
      SkipSpaceTo(s, p + 1, q);
    }
  }

  /** A token starting at `q` ends at the first white space `e`. */
  lemma {:induction false} TokenEndAt(s: string, q: nat, e: nat)
    requires q <= e < |s| && IsSpace(s[e])
    requires forall j :: q <= j < e ==> !IsSpace(s[j])
    ensures TokenEnd(s, q) == e
    decreases e - q
  {
    if q < e {
      TokenEndAt(s, q + 1, e);
    }
  }

  /**
   Reading from `p` gives the token `t` written at `q` when only white space
   lies between them and white space follows `t`.
   */
  lemma NextTokenAt(s: string, p: nat, q: nat, t: string)
    requires p <= q && q + |t| < |s| && |t| > 0 && NoSpace(t)
    requires forall j :: p <= j < q ==> IsSpace(s[j])
    requires s[q..q + |t|] == t && IsSpace(s[q + |t|])
    ensures NextToken(s, p) == Some(Token(t, q + |t|))
  {
    assert forall j :: q <= j < q + |t| ==> s[j] == t[j - q];
    SkipSpaceTo(s, p, q);
    TokenEndAt(s, q, q + |t|);
  }

  /** A string of digits holds no white space and is not a comment. */
  lemma DigitsAreToken(t: string)
    requires AllDigits(t)
    ensures NoSpace(t) && t[0] != '#' && t[0] != '-' && t[0] != '+'
  {
    DigitRunDigits(t, 0);
  }

  /** What `to_string` writes for a natural number is a digit token. */
  lemma {:induction false} NatToStringIsDigits(v: nat)
    ensures forall i :: 0 <= i < |NatToString(v)| ==> IsDigit(NatToString(v)[i])
    decreases v
  {
    if v >= 10 {
      NatToStringIsDigits(v / 10);
    }
  }

  /** What `to_string` writes for a natural number is a digit token. */
  lemma NatToStringDigits(v: nat)
    ensures AllDigits(NatToString(v))
  {
    NatToStringIsDigits(v);
    DigitRunToEnd(NatToString(v), 0);
  }

  /** Digits that agree on [lo, hi) have the same value. */
  lemma {:induction false} RunValueSame(t: string, u: string, lo: nat, hi: nat)
    requires lo <= hi <= |t| && hi <= |u|
    requires forall j :: lo <= j < hi ==> t[j] == u[j]
    ensures RunValue(t, lo, hi) == RunValue(u, lo, hi)
    decreases hi - lo
  {
    if hi > lo {
      RunValueSame(t, u, lo, hi - 1);
    }
  }

  /** Reading back the decimal digits of `v` gives `v`. */
  lemma {:induction false} DigitsValueOfString(v: nat)
    ensures RunValue(NatToString(v), 0, |NatToString(v)|) == v
    decreases v
  {
    var t := NatToString(v);
    if v >= 10 {
      var u := NatToString(v / 10);
      DigitsValueOfString(v / 10);
      RunValueSame(t, u, 0, |u|);
      DivUnique(v, 10, v / 10, v % 10);
    }
  }

  /** `stoi` of what `to_string` writes for an int-sized natural number is that number. */
  lemma StoiOfString(v: nat)
    requires v <= IntMax
    ensures Stoi(NatToString(v)) == Some(v)
  {
    var t := NatToString(v);
    NatToStringIsDigits(v);
    DigitRunToEnd(t, 0);
    DigitsValueOfString(v);
  }

  /**
   In pre + t + [c] + post, reading from the end of `pre` (or from its last
   character, when that is white space) gives the token `t`.
   */
  lemma ReadToken(s: string, pre: string, t: string, c: char, post: string, p: nat)
    requires s == pre + t + [c] + post
    requires |t| > 0 && NoSpace(t) && IsSpace(c)
    requires p == |pre| || (p + 1 == |pre| && IsSpace(pre[p]))
    ensures NextToken(s, p) == Some(Token(t, |pre| + |t|))
  {
    assert s[|pre|..|pre| + |t|] == t;
    assert s[|pre| + |t|] == c;
    if p < |pre| {
      assert s[p] == pre[p];
    }
    NextTokenAt(s, p, |pre|, t);
  }

  /** The magic token "P3" of a header of the written form. */
  lemma ReadMagic(s: string, ws: string, hs: string, rest: string)
    requires s == "P3 " + ws + " " + hs + " 255\n" + rest
    ensures NextToken(s, 0) == Some(Token("P3", 2))
  {
    var post := ws + " " + hs + " 255\n" + rest;
    assert s == [] + "P3" + [' '] + post;
    ReadToken(s, [], "P3", ' ', post, 0);
  }

  /** The width token of a header of the written form, and where it ends. */
  lemma ReadWidth(s: string, ws: string, hs: string, rest: string)
    requires s == "P3 " + ws + " " + hs + " 255\n" + rest
    requires AllDigits(ws)
    ensures NextToken(s, 2) == Some(Token(ws, 3 + |ws|))
  {
    DigitsAreToken(ws);
    var post := hs + " 255\n" + rest;
    assert s == "P3 " + ws + [' '] + post;
    ReadToken(s, "P3 ", ws, ' ', post, 2);
  }

  /** The height token of a header of the written form, and where it ends. */
  lemma ReadHeight(s: string, ws: string, hs: string, rest: string)
    requires s == "P3 " + ws + " " + hs + " 255\n" + rest
    requires AllDigits(hs)
    ensures NextToken(s, 3 + |ws|) == Some(Token(hs, 4 + |ws| + |hs|))
  {
    DigitsAreToken(hs);
    var pre, post := "P3 " + ws + " ", "255\n" + rest;
    assert s == pre + hs + [' '] + post;
    ReadToken(s, pre, hs, ' ', post, 3 + |ws|);
  }

  /** The maximum-value token "255" of a header of the written form, and where it ends. */
  lemma ReadMaxValue(s: string, ws: string, hs: string, rest: string)
    requires s == "P3 " + ws + " " + hs + " 255\n" + rest
    ensures NextToken(s, 4 + |ws| + |hs|) == Some(Token("255", 8 + |ws| + |hs|))
  {
    var pre := "P3 " + ws + " " + hs + " ";
    assert s == pre + "255" + ['\n'] + rest;
    var p: nat := 4 + |ws| + |hs|;
    assert p + 1 == |pre| && IsSpace(pre[p]);
    ReadToken(s, pre, "255", '\n', rest, p);
  }

  /**
   Where the header tokens are width, height and maximum value in decimal,
   the header loop reads the width and the height and stops after the third.
   */
  lemma ParseHeaderTokens(s: string, ws: string, hs: string, ms: string, w: int, h: int, e1: nat, e2: nat, e3: nat)
    requires 2 <= |s| && AllDigits(ws) && AllDigits(hs) && AllDigits(ms) && w >= 0 && h >= 0
    requires Stoi(ws) == Some(w) && Stoi(hs) == Some(h)
    requires NextToken(s, 2) == Some(Token(ws, e1))
    requires NextToken(s, e1) == Some(Token(hs, e2))
    requires NextToken(s, e2) == Some(Token(ms, e3))
    ensures ParseHeader(s, 2, 0, 0, 0) == Success(Header(w, h, e3))
  {
    DigitsAreToken(ws);
    DigitsAreToken(hs);
    DigitsAreToken(ms);
    HeaderStep(s, 2, 0, 0, 0, Token(ws, e1));
    HeaderStep(s, e1, 1, w, 0, Token(hs, e2));
    assert ParseHeader(s, e2, 2, w, h) == ParseHeader(s, e3, 3, w, h);
    assert ParseHeader(s, e3, 3, w, h) == Success(Header(w, h, e3));
  }

  /** One step of the pixel loop: a token that stoi accepts is stored as its value modulo 256. */
  lemma PixelNumber(s: string, p: nat, remaining: nat, acc: seq<byte>, tok: string, e: nat, v: int)
    requires p <= |s| && remaining > 0
    requires NextToken(s, p) == Some(Token(tok, e)) && Stoi(tok) == Some(v)
    ensures ParsePixels(s, p, remaining, acc) == ParsePixels(s, e, remaining - 1, acc + [ToByte(v)])
  {
  }

  /** Reading a byte value as written stores that byte. */
  lemma PixelValue(s: string, p: nat, remaining: nat, acc: seq<byte>, b: byte, e: nat)
    requires p <= |s| && remaining > 0
    requires NextToken(s, p) == Some(Token(NatToString(b as nat), e))
    ensures ParsePixels(s, p, remaining, acc) == ParsePixels(s, e, remaining - 1, acc + [b])
  {
    var t, v := NatToString(b as nat), b as int;
    assert Stoi(t) == Some(v) by {
      StoiOfString(b as nat);
    }
    assert ToByte(v) == b;
    PixelNumber(s, p, remaining, acc, t, e, v);
  }

  /** The text written from the (k+1)-th value on: that value, its separator, and the text after it. */
  lemma PixelTextSplit(s: string, pre: string, pixels: seq<byte>, k: nat)
    requires k < |pixels| && s == pre + PixelTextFrom(pixels, k)
    ensures s == pre + NatToString(pixels[k] as nat) + [Separator(k + 1)] + PixelTextFrom(pixels, k + 1)
  {
  }

  /** After text `pre` whose last character, at `p`, is white space, the next token is the (k+1)-th value written. */
  lemma ReadWrittenValue(s: string, pre: string, p: nat, pixels: seq<byte>, k: nat)
    requires k < |pixels| && p + 1 == |pre| && IsSpace(pre[p])
    requires s == pre + NatToString(pixels[k] as nat) + [Separator(k + 1)] + PixelTextFrom(pixels, k + 1)
    ensures NextToken(s, p) == Some(Token(NatToString(pixels[k] as nat), p + 1 + |NatToString(pixels[k] as nat)|))
  {
    var t := NatToString(pixels[k] as nat);
    NatToStringDigits(pixels[k] as nat);
    DigitsAreToken(t);
    ReadToken(s, pre, t, Separator(k + 1), PixelTextFrom(pixels, k + 1), p);
  }

  /**
   From position `p` on, the tokens read are the decimal forms of the values
   from the (k+1)-th on, each read from the white space just before it.
   */
  predicate TokensAt(s: string, p: nat, pixels: seq<byte>, k: nat)
    decreases |pixels| - k
  {
    && k <= |pixels| && p <= |s|
    && (k < |pixels| ==>
          var t := NatToString(pixels[k] as nat);
          && NextToken(s, p) == Some(Token(t, p + 1 + |t|))
          && TokensAt(s, p + 1 + |t|, pixels, k + 1))
  }

  /** Appending element k and then the elements after it appends the elements from k on. */
  lemma AppendNext<T>(acc: seq<T>, xs: seq<T>, k: nat)
    requires k < |xs|
    ensures acc + [xs[k]] + xs[k + 1..] == acc + xs[k..]
  {
    assert [xs[k]] + xs[k + 1..] == xs[k..];
  }

  /** Where the tokens are the written values, the pixel loop reads exactly those values. */
  lemma {:induction false} ParseTokens(s: string, p: nat, pixels: seq<byte>, k: nat, n: nat, acc: seq<byte>)
    requires TokensAt(s, p, pixels, k) && k + n == |pixels|
    ensures ParsePixels(s, p, n, acc) == Success(acc + pixels[k..])
    decreases n
  {
    if n == 0 {
      assert acc + pixels[k..] == acc;
    } else {
      var t := NatToString(pixels[k] as nat);
      var e: nat := p + 1 + |t|;
      var acc' := acc + [pixels[k]];
      assert ParsePixels(s, p, n, acc) == ParsePixels(s, e, n - 1, acc') by {
        PixelValue(s, p, n, acc, pixels[k], e);
      }
      assert ParsePixels(s, e, n - 1, acc') == Success(acc + pixels[k..]) by {
        ParseTokens(s, e, pixels, k + 1, n - 1, acc');
        AppendNext(acc, pixels, k);
      }
    }
  }


  /** The text after the (k+1)-th written value, ending at `q`, again follows white space. */
  lemma WrittenRest(s: string, pre: string, pre': string, p: nat, q: nat, pixels: seq<byte>, k: nat)
    requires k < |pixels| && p + 1 == |pre| && IsSpace(pre[p])
    requires s == pre + PixelTextFrom(pixels, k)
    requires pre' == pre + NatToString(pixels[k] as nat) + [Separator(k + 1)]
    requires q == p + 1 + |NatToString(pixels[k] as nat)|
    ensures s == pre' + PixelTextFrom(pixels, k + 1) && q + 1 == |pre'| && IsSpace(pre'[q])
  {
    PixelTextSplit(s, pre, pixels, k);
  }

  /** When the tokens after the (k+1)-th written value, from `q`, are the later values, so are the tokens from `p` on. */
  lemma WrittenStep(s: string, pre: string, p: nat, q: nat, pixels: seq<byte>, k: nat)
    requires k < |pixels| && p + 1 == |pre| && IsSpace(pre[p])
    requires s == pre + PixelTextFrom(pixels, k)
    requires q == p + 1 + |NatToString(pixels[k] as nat)| && TokensAt(s, q, pixels, k + 1)
    ensures TokensAt(s, p, pixels, k)
  {
    PixelTextSplit(s, pre, pixels, k);
    ReadWrittenValue(s, pre, p, pixels, k);
  }

  /** After text `pre` whose last character, at `p`, is white space, the written values are the tokens read. */
  lemma {:induction false} WrittenTokens(s: string, pre: string, p: nat, pixels: seq<byte>, k: nat)
    requires k <= |pixels| && p + 1 == |pre| && IsSpace(pre[p])
    requires s == pre + PixelTextFrom(pixels, k)
    ensures TokensAt(s, p, pixels, k)
    decreases |pixels| - k
  {
    if k < |pixels| {
      var t := NatToString(pixels[k] as nat);
      var pre', q := pre + t + [Separator(k + 1)], p + 1 + |t|;
      WrittenRest(s, pre, pre', p, q, pixels, k);
      WrittenTokens(s, pre', q, pixels, k + 1);
      WrittenStep(s, pre, p, q, pixels, k);
    }
  }

  /** A text whose magic token, header and channel values read successfully is read as that image. */
  lemma ParseP3Parts(s: string, w: int, h: int, e: nat, pixels: seq<byte>)
    requires w >= 0 && h >= 0 && e <= |s|
    requires NextToken(s, 0) == Some(Token("P3", 2))
    requires ParseHeader(s, 2, 0, 0, 0) == Success(Header(w, h, e))
    requires |pixels| == w * h * 3 && ParsePixels(s, e, |pixels|, []) == Success(pixels)
    ensures ParseP3(s, true) == Success(P3Image(w, h, 3, pixels))
    ensures ParseP3(s, false) == Success(P3Image(w, h, 3, []))
  {
  }

  /**
   A header of the written form, with the width and the height in decimal
   as `ws` and `hs`, is read by the header loop up to its final newline.
   */
  lemma ReadHeader(s: string, ws: string, hs: string, rest: string, w: int, h: int)
    requires s == "P3 " + ws + " " + hs + " 255\n" + rest
    requires AllDigits(ws) && AllDigits(hs) && w >= 0 && h >= 0 && Stoi(ws) == Some(w) && Stoi(hs) == Some(h)
    ensures NextToken(s, 0) == Some(Token("P3", 2))
    ensures ParseHeader(s, 2, 0, 0, 0) == Success(Header(w, h, 8 + |ws| + |hs|))
  {
    ReadMagic(s, ws, hs, rest);
    ReadWidth(s, ws, hs, rest);
    ReadHeight(s, ws, hs, rest);
    ReadMaxValue(s, ws, hs, rest);
    assert AllDigits("255");
    ParseHeaderTokens(s, ws, hs, "255", w, h, 3 + |ws|, 4 + |ws| + |hs|, 8 + |ws| + |hs|);
  }

  /** The header the writer emits, with width and height written out in decimal. */
  lemma HeaderDigits(w: int, h: int)
    requires w >= 0 && h >= 0
    ensures P3Header(w, h) == "P3 " + NatToString(w) + " " + NatToString(h) + " 255\n"
    ensures |P3Header(w, h)| - 1 == 8 + |NatToString(w)| + |NatToString(h)|
  {
  }

  /**
   The header `hd` the writer emits, followed by any text, reads back as
   "P3", the width and the height, ending on its final newline at `e`.
   */
  lemma WrittenHeader(s: string, hd: string, rest: string, w: int, h: int, e: nat)
    requires 0 <= w <= IntMax && 0 <= h <= IntMax && hd == P3Header(w, h) && s == hd + rest && e + 1 == |hd|
    ensures hd[e] == '\n'
    ensures NextToken(s, 0) == Some(Token("P3", 2))
    ensures ParseHeader(s, 2, 0, 0, 0) == Success(Header(w, h, e))
  {
    var ws, hs := NatToString(w), NatToString(h);
    assert hd == "P3 " + ws + " " + hs + " 255\n" && e == 8 + |ws| + |hs| by {
      HeaderDigits(w, h);
    }
    WrittenHeaderDigits(s, w, h, rest, ws, hs, e);
  }

  /** The header of the written form with the decimal forms `ws` and `hs` of width and height reads back. */
  lemma WrittenHeaderDigits(s: string, w: int, h: int, rest: string, ws: string, hs: string, e: nat)
    requires 0 <= w <= IntMax && 0 <= h <= IntMax && s == "P3 " + ws + " " + hs + " 255\n" + rest
    requires ws == NatToString(w) && hs == NatToString(h) && e == 8 + |ws| + |hs|
    ensures NextToken(s, 0) == Some(Token("P3", 2))
    ensures ParseHeader(s, 2, 0, 0, 0) == Success(Header(w, h, e))
  {
    NatToStringDigits(w);
    NatToStringDigits(h);
    StoiOfString(w);
    StoiOfString(h);
    ReadHeader(s, ws, hs, rest, w, h);
  }

  /** Tokens that are the decimal forms of `pixels` are parsed as exactly those values. */
  lemma ReadPixels(s: string, p: nat, pixels: seq<byte>)
    requires TokensAt(s, p, pixels, 0)
    ensures ParsePixels(s, p, |pixels|, []) == Success(pixels)
  {
    ParseTokens(s, p, pixels, 0, |pixels|, []);
    assert [] + pixels[0..] == pixels;
  }

  /** After a text `hd` ending in white space at `p`, the written channel values read back. */
  lemma WrittenPixels(s: string, hd: string, p: nat, pixels: seq<byte>)
    requires p + 1 == |hd| && IsSpace(hd[p]) && s == hd + PixelTextFrom(pixels, 0)
    ensures ParsePixels(s, p, |pixels|, []) == Success(pixels)
  {
    WrittenTokens(s, hd, p, pixels, 0);
    ReadPixels(s, p, pixels);
  }

  /** A header as the writer emits it followed by the written channel values reads back as that image. */
  lemma ReadWritten(s: string, hd: string, w: int, h: int, pixels: seq<byte>)
    requires 0 <= w <= IntMax && 0 <= h <= IntMax && |pixels| == w * h * 3
    requires hd == P3Header(w, h) && s == hd + PixelTextFrom(pixels, 0)
    ensures ParseP3(s, true) == Success(P3Image(w, h, 3, pixels))
    ensures ParseP3(s, false) == Success(P3Image(w, h, 3, []))
  {
    var e: nat := |hd| - 1;
    WrittenHeader(s, hd, PixelTextFrom(pixels, 0), w, h, e);
    WrittenPixels(s, hd, e, pixels);
    ParseP3Parts(s, w, h, e, pixels);
  }

  /**
   What the writer emits reads back as the same image: same width and
   height, three channels, and the same channel values.
   */
  lemma WriteThenRead(w: int, h: int, pixels: seq<byte>)
    requires 0 <= w <= IntMax && 0 <= h <= IntMax && |pixels| == w * h * 3
    ensures ParseP3(P3Text(w, h, pixels), true) == Success(P3Image(w, h, 3, pixels))
    ensures ParseP3(P3Text(w, h, pixels), false) == Success(P3Image(w, h, 3, []))
  {
    ReadWritten(P3Text(w, h, pixels), P3Header(w, h), w, h, pixels);
  }
}
