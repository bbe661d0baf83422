/** `hexToRGB` (extension.js:10-26): a 3- or 6-digit hex colour to its three
    channel values. A 3-digit input is doubled character by character and is
    NOT checked for hex digits; a 6-digit input is. The doubled or checked
    string is cut by the global regular expression `.{1,2}` and each of the
    first three pieces goes through `parseInt(piece, 16)`, so a non-hex
    3-digit input yields NaN channels rather than an error. */
module HexColour {
  import opened Wrappers
  import opened Strings

  /** What `hexToRGB` throws. */
  datatype HexError =
    | WrongLength   // "Only 3- or 6-digit hex colours are allowed."
    | NotHex        // "Only hex colours are allowed."
    | NoPieces      // `match` returned null: a TypeError on `aRgbHex[0]`

  /** A number `parseInt` returns: an integer or NaN. */
  datatype Channel = Num(n: int) | NaN

  predicate IsHexDigit(c: char)
  {
    ('0' <= c <= '9') || ('a' <= c <= 'f') || ('A' <= c <= 'F')
  }

  /** The string has no match for `/[^0-9a-f]/i`. */
  predicate AllHex(s: string)
  {
    forall k :: 0 <= k < |s| ==> IsHexDigit(s[k])
  }

  function DigitValue(c: char): (d: nat)
    requires IsHexDigit(c)
    ensures d < 16
  {
    if '0' <= c <= '9' then c as int - '0' as int
    else if 'a' <= c <= 'f' then c as int - 'a' as int + 10
    else c as int - 'A' as int + 10
  }

  /** Reads the run of hex digits at the start of `s`, most significant
      first, on top of the value `acc` read so far. */
  function HexRun(s: string, acc: nat): nat
  {
    if |s| > 0 && IsHexDigit(s[0]) then HexRun(s[1..], 16 * acc + DigitValue(s[0])) else acc
  }

  function TrimStart(s: string): (r: string)
    ensures |r| <= |s|
    ensures |r| > 0 ==> !IsStrWhiteSpace(r[0])
  {
    if |s| > 0 && IsStrWhiteSpace(s[0]) then TrimStart(s[1..]) else s
  }

  /** `parseInt(s, 16)`: skip leading white space, an optional sign, an
      optional `0x`/`0X`, then read the longest run of hex digits; NaN if
      there is none. (Results beyond 2^53 would be rounded by JavaScript;
      the pieces read here have at most two digits.) */
  function ParseIntHex(s: string): (c: Channel)
  {
    var t := TrimStart(s);
    var negative := |t| > 0 && t[0] == '-';
    var u := if |t| > 0 && (t[0] == '-' || t[0] == '+') then t[1..] else t;
    var v := if |u| >= 2 && u[0] == '0' && (u[1] == 'x' || u[1] == 'X') then u[2..] else u;
    if |v| == 0 || !IsHexDigit(v[0]) then NaN
    else
      var magnitude: int := HexRun(v, 0);
      Num(if negative then -magnitude else magnitude)
  }

  /** Every character written twice, in order (extension.js:12). */
  function DoubleEach(s: string): (r: string)
    ensures |r| == 2 * |s|
  {
    if s == [] then [] else [s[0], s[0]] + DoubleEach(s[1..])
  }

  /** `s.match(/.{1,2}/g)`, with [] for null: scanning left to right, a line
      terminator starts no piece, and a piece takes a second character unless
      that one is a line terminator or missing. */
  function Pieces(s: string): seq<string>
  {
    if |s| == 0 then []
    else if IsLineTerminator(s[0]) then Pieces(s[1..])
    else if |s| >= 2 && !IsLineTerminator(s[1]) then [s[..2]] + Pieces(s[2..])
    else [s[..1]] + Pieces(s[1..])
  }

  /** The channel read from piece `k` (extension.js:21-23); a missing piece is `undefined`, which
      `parseInt` reads as the text "undefined" and so as NaN (ParseUndefined). */
  function ChannelOf(pieces: seq<string>, k: nat): Channel
  {
    if k < |pieces| then ParseIntHex(pieces[k]) else NaN
  }

  /** The array of the first three channels (extension.js:20-24), or the
      TypeError of indexing a null match. */
  function ChannelsOf(pieces: seq<string>): Result<seq<Channel>, HexError>
  {
    if |pieces| == 0 then Failure(NoPieces)
    else Success(seq(3, k requires 0 <= k < 3 => ChannelOf(pieces, k)))
  }

  /** `hexToRGB(hex)`: its three channels, or the error it throws. */
  function HexToRGB(hex: string): Result<seq<Channel>, HexError>
  {
    if |hex| == 3 then ChannelsOf(Pieces(DoubleEach(hex)))
    else if |hex| != 6 then Failure(WrongLength)
    else if !AllHex(hex) then Failure(NotHex)
    else ChannelsOf(Pieces(hex))
  }

  /** The two guarded errors of `hexToRGB` and when each is thrown; every
      result that is not an error holds three channels. */
  lemma HexToRGBVerdicts(hex: string)
    ensures HexToRGB(hex).Success? ==> |HexToRGB(hex).value| == 3
    ensures HexToRGB(hex) == Failure(WrongLength) <==> |hex| != 3 && |hex| != 6
    ensures HexToRGB(hex) == Failure(NotHex) <==> |hex| == 6 && !AllHex(hex)
  {
  }

  /** The value of the hex pair `ab`. */
  function PairValue(a: char, b: char): (v: nat)
    requires IsHexDigit(a) && IsHexDigit(b)
    ensures v < 256
  {
    16 * DigitValue(a) + DigitValue(b)
  }

  lemma HexDigitIsPlain(c: char)
    requires IsHexDigit(c)
    ensures !IsLineTerminator(c) && !IsStrWhiteSpace(c) && c != '-' && c != '+' && c != 'x' && c != 'X'
  {
  }

  lemma ParseHexPair(a: char, b: char)
    requires IsHexDigit(a) && IsHexDigit(b)
    ensures ParseIntHex([a, b]) == Num(PairValue(a, b))
  {
    HexDigitIsPlain(a);
    HexDigitIsPlain(b);
    var s := [a, b];
    assert TrimStart(s) == s;
    assert s[1..] == [b] && [b][1..] == [];
    assert HexRun([b], DigitValue(a)) == HexRun([], 16 * DigitValue(a) + DigitValue(b));
    assert HexRun(s, 0) == HexRun([b], DigitValue(a));
  }

  /** A doubled character that is not a hex digit reads as NaN, whatever it is. */
  lemma ParseNonHexPair(c: char)
    requires !IsHexDigit(c)
    ensures ParseIntHex([c, c]) == NaN
  {
    var s := [c, c];
    if IsStrWhiteSpace(c) {
      assert TrimStart(s[1..][1..]) == [];
      assert TrimStart(s) == [];
    } else {
      assert TrimStart(s) == s;
    }
  }

  /** Text that starts with neither white space, a sign, `0` nor a hex digit reads as NaN. */
  lemma ParseNonNumeric(s: string)
    requires |s| > 0 && !IsStrWhiteSpace(s[0]) && !IsHexDigit(s[0]) && s[0] != '-' && s[0] != '+'
    ensures ParseIntHex(s) == NaN
  {
    assert TrimStart(s) == s;
  }

  /** `parseInt(undefined, 16)` reads the text "undefined": NaN. */
  lemma ParseUndefined()
    ensures ParseIntHex("undefined") == NaN
  {
    var u := "undefined";
    assert u[0] == 'u';
    ParseNonNumeric(u);
  }

  /** The pieces of a doubled string: one `cc` per character that is not a
      line terminator. */
  function DoubledPieces(s: string): seq<string>
  {
    if s == [] then []
    else (if IsLineTerminator(s[0]) then [] else [[s[0], s[0]]]) + DoubledPieces(s[1..])
  }

  lemma {:induction false} PiecesOfDoubled(s: string)
    ensures Pieces(DoubleEach(s)) == DoubledPieces(s)
  {
    if s != [] {
      var d := DoubleEach(s);
      assert d[2..] == DoubleEach(s[1..]);
      PiecesOfDoubled(s[1..]);
      if IsLineTerminator(s[0]) {
        assert d[1..][1..] == d[2..];
      } else {
        assert d[..2] == [s[0], s[0]];
      }
    }
  }

  lemma PiecesOfSix(hex: string)
    requires |hex| == 6 && NoLineTerminator(hex)
    ensures Pieces(hex) == [[hex[0], hex[1]], [hex[2], hex[3]], [hex[4], hex[5]]]
  {
    var t2, t4 := hex[2..], hex[4..];
    assert !IsLineTerminator(hex[0]) && !IsLineTerminator(hex[1]);
    assert Pieces(hex) == [hex[..2]] + Pieces(t2);
    assert t2[0] == hex[2] && t2[1] == hex[3] && t2[2..] == t4;
    assert !IsLineTerminator(t2[0]) && !IsLineTerminator(t2[1]);
    assert Pieces(t2) == [t2[..2]] + Pieces(t4);
    assert t4[0] == hex[4] && t4[1] == hex[5] && t4[2..] == [];
    assert !IsLineTerminator(t4[0]) && !IsLineTerminator(t4[1]);
    assert Pieces(t4) == [t4[..2]] + Pieces([]);
    assert hex[..2] == [hex[0], hex[1]] && t2[..2] == [hex[2], hex[3]] && t4[..2] == [hex[4], hex[5]];
  }

  /** A piece of two hex digits reads as the pair's value. */
  lemma ChannelOfPair(p: seq<string>, k: nat)
    requires k < |p| && |p[k]| == 2 && IsHexDigit(p[k][0]) && IsHexDigit(p[k][1])
    ensures ChannelOf(p, k) == Num(PairValue(p[k][0], p[k][1]))
  {
    assert p[k] == [p[k][0], p[k][1]];
    ParseHexPair(p[k][0], p[k][1]);
  }

  /** A 6-digit hex colour: its channels are the values of character pairs
      0-1, 2-3 and 4-5. */
  lemma SixDigitChannels(hex: string)
    requires |hex| == 6 && AllHex(hex)
    ensures HexToRGB(hex) == Success([Num(PairValue(hex[0], hex[1])), Num(PairValue(hex[2], hex[3])), Num(PairValue(hex[4], hex[5]))])
  {
    SixDigitPieces(hex);
  }

  lemma SixDigitPieces(hex: string)
    requires |hex| == 6 && AllHex(hex)
    ensures ChannelsOf(Pieces(hex)) == Success([Num(PairValue(hex[0], hex[1])), Num(PairValue(hex[2], hex[3])), Num(PairValue(hex[4], hex[5]))])
  {
    forall k | 0 <= k < 6 ensures !IsLineTerminator(hex[k]) { HexDigitIsPlain(hex[k]); }
    PiecesOfSix(hex);
    ChannelsOfPairs(hex[0], hex[1], hex[2], hex[3], hex[4], hex[5]);
  }

  /** Three pieces of two hex digits each read as the three pair values. */
  lemma ChannelsOfPairs(a: char, b: char, c: char, d: char, e: char, f: char)
    requires IsHexDigit(a) && IsHexDigit(b) && IsHexDigit(c) && IsHexDigit(d) && IsHexDigit(e) && IsHexDigit(f)
    ensures ChannelsOf([[a, b], [c, d], [e, f]]) == Success([Num(PairValue(a, b)), Num(PairValue(c, d)), Num(PairValue(e, f))])
  {
    var p := [[a, b], [c, d], [e, f]];
    ChannelOfPair(p, 0);
    ChannelOfPair(p, 1);
    ChannelOfPair(p, 2);
    var cs := ChannelsOf(p).value;
    assert cs == [Num(PairValue(a, b)), Num(PairValue(c, d)), Num(PairValue(e, f))];
  }

  /** A 6-character input is accepted exactly when every character is a hex digit. */
  lemma SixCharacterVerdict(hex: string)
    requires |hex| == 6
    ensures HexToRGB(hex).Success? <==> AllHex(hex)
  {
    if AllHex(hex) { SixDigitChannels(hex); }
  }

  /** A 3-digit input without line terminators never throws: each channel is
      the doubled digit's value, or NaN where the character is not a hex digit. */
  lemma ThreeCharacterChannels(hex: string)
    requires |hex| == 3 && NoLineTerminator(hex)
    ensures HexToRGB(hex).Success?
    ensures forall k :: 0 <= k < 3 ==>
      HexToRGB(hex).value[k] == if IsHexDigit(hex[k]) then Num(PairValue(hex[k], hex[k])) else NaN
  {
    PiecesOfDoubled(hex);
    var p := DoubledPieces(hex);
    var t1, t2 := hex[1..], hex[2..];
    assert !IsLineTerminator(hex[0]) && !IsLineTerminator(hex[1]) && !IsLineTerminator(hex[2]);
    assert t1[0] == hex[1] && t1[1..] == t2 && t2[0] == hex[2] && t2[1..] == [];
    assert DoubledPieces(t2) == [[hex[2], hex[2]]] + DoubledPieces([]);
    assert DoubledPieces(t1) == [[hex[1], hex[1]]] + DoubledPieces(t2);
    assert p == [[hex[0], hex[0]]] + DoubledPieces(t1);
    assert p == [[hex[0], hex[0]], [hex[1], hex[1]], [hex[2], hex[2]]];
    assert HexToRGB(hex) == ChannelsOf(p);
    forall k | 0 <= k < 3
      ensures ChannelOf(p, k) == if IsHexDigit(hex[k]) then Num(PairValue(hex[k], hex[k])) else NaN
    {
      if IsHexDigit(hex[k]) { ParseHexPair(hex[k], hex[k]); } else { ParseNonHexPair(hex[k]); }
    }
  }

  /** The characters of `s` that `.` matches, in order. */
  function KeptChars(s: string): string
  {
    if s == [] then [] else (if IsLineTerminator(s[0]) then [] else [s[0]]) + KeptChars(s[1..])
  }

  /** The channel a doubled character reads as. */
  function DoubledChannel(c: char): Channel
  {
    if IsHexDigit(c) then Num(PairValue(c, c)) else NaN
  }

  /** The doubled pieces are the kept characters, each written twice. */
  lemma {:induction false} DoubledPiecesOfKept(s: string)
    ensures |DoubledPieces(s)| == |KeptChars(s)|
    ensures forall k :: 0 <= k < |KeptChars(s)| ==> DoubledPieces(s)[k] == [KeptChars(s)[k], KeptChars(s)[k]]
  {
    if s != [] {
      DoubledPiecesOfKept(s[1..]);
    }
  }

  /** Every 3-character value, line terminators included: hexToRGB throws
      exactly when `.` matches none of its characters; otherwise channel k
      comes from the k-th character `.` matches, doubled, and is NaN when
      fewer than k + 1 characters are matched (`"a\nb"` gives 170, 187, NaN). */
  lemma ThreeCharacterKept(hex: string)
    requires |hex| == 3
    ensures HexToRGB(hex).Success? <==> |KeptChars(hex)| > 0
    ensures HexToRGB(hex).Success? ==> forall k :: 0 <= k < 3 ==>
      HexToRGB(hex).value[k] == if k < |KeptChars(hex)| then DoubledChannel(KeptChars(hex)[k]) else NaN
  {
    PiecesOfDoubled(hex);
    DoubledPiecesOfKept(hex);
    var p := DoubledPieces(hex);
    var kept := KeptChars(hex);
    assert HexToRGB(hex) == ChannelsOf(p);
    if |p| > 0 {
      forall k | 0 <= k < 3
        ensures ChannelOf(p, k) == if k < |kept| then DoubledChannel(kept[k]) else NaN
      {
        if k < |p| {
          var c := kept[k];
          assert p[k] == [c, c];
          if IsHexDigit(c) { ParseHexPair(c, c); } else { ParseNonHexPair(c); }
        }
      }
    }
  }

  lemma ThreeDigitChannels(hex: string)
    requires |hex| == 3 && AllHex(hex)
    ensures HexToRGB(hex) == Success([Num(PairValue(hex[0], hex[0])), Num(PairValue(hex[1], hex[1])), Num(PairValue(hex[2], hex[2]))])
  {
    forall k | 0 <= k < 3 ensures !IsLineTerminator(hex[k]) { HexDigitIsPlain(hex[k]); }
    ThreeCharacterChannels(hex);
    var r := HexToRGB(hex).value;
    assert r[0] == Num(PairValue(hex[0], hex[0]));
    assert r[1] == Num(PairValue(hex[1], hex[1]));
    assert r[2] == Num(PairValue(hex[2], hex[2]));
    assert r == [Num(PairValue(hex[0], hex[0])), Num(PairValue(hex[1], hex[1])), Num(PairValue(hex[2], hex[2]))];
  }

  lemma DoubleThree(hex: string)
    requires |hex| == 3
    ensures DoubleEach(hex) == [hex[0], hex[0], hex[1], hex[1], hex[2], hex[2]]
  {
    var t1, t2 := hex[1..], hex[2..];
    assert t1[0] == hex[1] && t1[1..] == t2 && t2[0] == hex[2] && t2[1..] == [];
    assert DoubleEach(t2) == [hex[2], hex[2]] + DoubleEach([]);
    assert DoubleEach(t1) == [hex[1], hex[1]] + DoubleEach(t2);
  }

  /** A 3-digit hex colour gives the same channels as its doubled 6-digit
      form: `abc` reads as `aabbcc`. */
  lemma ThreeDigitIsDoubled(hex: string)
    requires |hex| == 3 && AllHex(hex)
    ensures HexToRGB(hex) == HexToRGB(DoubleEach(hex))
  {
    var d := DoubleEach(hex);
    assert AllHex(d) by {
      DoubleThree(hex);
      assert forall k :: 0 <= k < 6 ==> d[k] == hex[k / 2];
    }
  }

  /** Whenever the input was checked or consists of hex digits, every channel
      is a byte. */
  lemma ChannelsAreBytes(hex: string)
    requires HexToRGB(hex).Success? && AllHex(hex)
    ensures forall k :: 0 <= k < 3 ==> HexToRGB(hex).value[k].Num? && 0 <= HexToRGB(hex).value[k].n < 256
  {
    if |hex| == 6 {
      SixDigitChannels(hex);
    } else {
      assert |hex| == 3;
      ThreeDigitChannels(hex);
    }
  }

  /** The third error: `.{1,2}` finds nothing, and indexing the null match
      throws, exactly for a 3-character input made of line terminators. */
  lemma NoPiecesIff(hex: string)
    ensures HexToRGB(hex) == Failure(NoPieces) <==> |hex| == 3 && forall k :: 0 <= k < 3 ==> IsLineTerminator(hex[k])
  {
    if |hex| == 3 {
      PiecesOfDoubled(hex);
      var t1, t2 := hex[1..], hex[2..];
      assert t1[0] == hex[1] && t1[1..] == t2 && t2[0] == hex[2] && t2[1..] == [];
      assert DoubledPieces(t2) == (if IsLineTerminator(hex[2]) then [] else [[hex[2], hex[2]]]) + DoubledPieces([]);
      assert DoubledPieces(t1) == (if IsLineTerminator(hex[1]) then [] else [[hex[1], hex[1]]]) + DoubledPieces(t2);
      assert DoubledPieces(hex) == (if IsLineTerminator(hex[0]) then [] else [[hex[0], hex[0]]]) + DoubledPieces(t1);
    } else if |hex| == 6 && AllHex(hex) {
      SixDigitPieces(hex);
    }
  }

  /** Lower-case hex digit for a value below 16. */
  function HexDigitChar(d: nat): (c: char)
    requires d < 16
    ensures IsHexDigit(c) && DigitValue(c) == d
  {
    if d < 10 then ('0' as int + d) as char else ('a' as int + d - 10) as char
  }

  /** The two-digit lower-case hex form of a byte: the writing partner of hexToRGB. */
  function ByteToHex(b: nat): (s: string)
    requires b < 256
    ensures |s| == 2 && AllHex(s) && PairValue(s[0], s[1]) == b
  {
    [HexDigitChar(b / 16), HexDigitChar(b % 16)]
  }

  /** Writing three bytes as `rrggbb` and reading them back gives the bytes. */
  lemma RoundTrip(r: nat, g: nat, b: nat)
    requires r < 256 && g < 256 && b < 256
    ensures HexToRGB(ByteToHex(r) + ByteToHex(g) + ByteToHex(b)) == Success([Num(r), Num(g), Num(b)])
  {
    var hex := ByteToHex(r) + ByteToHex(g) + ByteToHex(b);
    assert hex == [ByteToHex(r)[0], ByteToHex(r)[1], ByteToHex(g)[0], ByteToHex(g)[1], ByteToHex(b)[0], ByteToHex(b)[1]];
    SixDigitChannels(hex);
  }
}
