/** The best-effort repair the production report applies to product names:
    `produto.encode('latin1').decode('utf-8')`, keeping the name unchanged
    when either step raises. The production page is read as Latin-1, so a
    name sent as UTF-8 arrives with each of its bytes turned into one
    character; the repair turns those characters back into bytes and decodes
    them as UTF-8. */
module Mojibake {
  import opened Wrappers

  type byte = x: int | 0 <= x < 256

  /** `s.encode('latin1')`: fails as soon as a character is above U+00FF. */
  function Latin1Encode(s: string): (r: Option<seq<byte>>)
    ensures r.Some? <==> forall i :: 0 <= i < |s| ==> s[i] as int < 256
    ensures r.Some? ==> |r.value| == |s| && forall i :: 0 <= i < |s| ==> r.value[i] == s[i] as int
  {
    if forall i :: 0 <= i < |s| ==> s[i] as int < 256
    then Some(seq(|s|, i requires 0 <= i < |s| => s[i] as int))
    else None
  }

  /** `b.decode('latin1')`: every byte becomes the character with that code. */
  function Latin1Decode(b: seq<byte>): (s: string)
    ensures |s| == |b| && forall i :: 0 <= i < |b| ==> s[i] as int == b[i]
  {
    seq(|b|, i requires 0 <= i < |b| => b[i] as char)
  }

  predicate IsContinuation(b: byte) {
    0x80 <= b < 0xC0
  }

  /** Decodes the first character of strict UTF-8 (no overlong forms, no
      surrogates, nothing above U+10FFFF); gives the character and the
      number of bytes it used. */
  function DecodeFirst(b: seq<byte>): (r: Option<(char, nat)>)
    requires |b| > 0
    ensures r.Some? ==> 1 <= r.value.1 <= 4 && r.value.1 <= |b|
    ensures r.Some? ==> (r.value.1 == 1 <==> b[0] < 0x80)
    ensures r.Some? ==> forall k :: 1 <= k < r.value.1 ==> IsContinuation(b[k])
  {
    var b0 := b[0] as int;
    if b0 < 0x80 then Some((b0 as char, 1))
    else if 0xC2 <= b0 < 0xE0 then
      if |b| >= 2 && IsContinuation(b[1])
      then Some((((b0 - 0xC0) * 64 + (b[1] as int - 0x80)) as char, 2))
      else None
    else if 0xE0 <= b0 < 0xF0 then
      if |b| >= 3 && IsContinuation(b[1]) && IsContinuation(b[2]) then
        var cp := (b0 - 0xE0) * 4096 + (b[1] as int - 0x80) * 64 + (b[2] as int - 0x80);
        if cp < 0x800 || (0xD800 <= cp < 0xE000) then None else Some((cp as char, 3))
      else None
    else if 0xF0 <= b0 < 0xF5 then
      if |b| >= 4 && IsContinuation(b[1]) && IsContinuation(b[2]) && IsContinuation(b[3]) then
        var cp := (b0 - 0xF0) * 262144 + (b[1] as int - 0x80) * 4096 + (b[2] as int - 0x80) * 64 + (b[3] as int - 0x80);
        if cp < 0x10000 || cp >= 0x110000 then None else Some((cp as char, 4))
      else None
    else None
  }

  /** `b.decode('utf-8')`: None where Python raises UnicodeDecodeError. A
      decoded text is never longer than its bytes. */
  function DecodeUtf8(b: seq<byte>): (r: Option<string>)
    ensures r.Some? ==> |r.value| <= |b|
    decreases |b|
  {
    if b == [] then Some([])
    else match DecodeFirst(b)
      case None => None
      case Some((c, n)) =>
        match DecodeUtf8(b[n..])
        case None => None
        case Some(rest) => Some([c] + rest)
  }

  /** `s.encode('utf-8')` for one character. */
  function EncodeChar(c: char): (r: seq<byte>)
    ensures 1 <= |r| <= 4
  {
    var cp := c as int;
    if cp < 0x80 then [cp]
    else if cp < 0x800 then [0xC0 + cp / 64, 0x80 + cp % 64]
    else if cp < 0x10000 then [0xE0 + cp / 4096, 0x80 + (cp / 64) % 64, 0x80 + cp % 64]
    else [0xF0 + cp / 262144, 0x80 + (cp / 4096) % 64, 0x80 + (cp / 64) % 64, 0x80 + cp % 64]
  }

  /** `s.encode('utf-8')`. */
  function EncodeUtf8(s: string): seq<byte> {
    if s == [] then [] else EncodeChar(s[0]) + EncodeUtf8(s[1..])
  }

  /** The repair of app.py: re-encode as Latin-1 and decode as UTF-8, or keep
      the name as it was when either step fails. */
  function Repair(name: string): (r: string)
    ensures |r| <= |name|
    ensures Latin1Encode(name).Some? && DecodeUtf8(Latin1Encode(name).value).Some?
            ==> r == DecodeUtf8(Latin1Encode(name).value).value
    ensures Latin1Encode(name).None? || DecodeUtf8(Latin1Encode(name).value).None? ==> r == name
  {
    match Latin1Encode(name)
    case None => name
    case Some(bytes) =>
      match DecodeUtf8(bytes)
      case None => name
      case Some(decoded) => decoded
  }

  lemma SplitBy64(x: int)
    requires 0 <= x
    ensures x == (x / 64) * 64 + x % 64 && 0 <= x % 64 < 64
  {
  }

  /** Decoding the encoding of one character gives the character back. */
  lemma DecodeEncodeChar(c: char, rest: seq<byte>)
    ensures DecodeFirst(EncodeChar(c) + rest) == Some((c, |EncodeChar(c)|))
  {
    var cp := c as int;
    var b: seq<int> := EncodeChar(c) + rest;
    if cp < 0x80 {
    } else if cp < 0x800 {
      SplitBy64(cp);
      assert b[0] == 0xC0 + cp / 64 && b[1] == 0x80 + cp % 64;
      assert (b[0] - 0xC0) * 64 + (b[1] - 0x80) == cp;
    } else if cp < 0x10000 {
      var q := cp / 64;
      SplitBy64(cp);
      SplitBy64(q);
      assert cp / 4096 == q / 64;
      assert b[0] == 0xE0 + q / 64 && b[1] == 0x80 + q % 64 && b[2] == 0x80 + cp % 64;
      assert (b[0] - 0xE0) * 4096 + (b[1] - 0x80) * 64 + (b[2] - 0x80) == cp;
    } else {
      var q := cp / 64;
      var p := q / 64;
      SplitBy64(cp);
      SplitBy64(q);
      SplitBy64(p);
      assert cp / 4096 == p;
      assert cp / 262144 == p / 64;
      assert b[0] == 0xF0 + p / 64 && b[1] == 0x80 + p % 64;
      assert b[2] == 0x80 + q % 64 && b[3] == 0x80 + cp % 64;
      assert (b[0] - 0xF0) * 262144 + (b[1] - 0x80) * 4096 + (b[2] - 0x80) * 64 + (b[3] - 0x80) == cp;
    }
  }

  /** UTF-8 decoding undoes UTF-8 encoding. */
  lemma {:induction false} DecodeEncode(s: string)
    ensures DecodeUtf8(EncodeUtf8(s)) == Some(s)
  {
    if s != [] {
      var e := EncodeChar(s[0]);
      var rest := EncodeUtf8(s[1..]);
      DecodeEncodeChar(s[0], rest);
      assert (e + rest)[|e|..] == rest;
      DecodeEncode(s[1..]);
      assert [s[0]] + s[1..] == s;
    }
  }

  /** Latin-1 encoding undoes Latin-1 decoding. */
  lemma Latin1RoundTrip(b: seq<byte>)
    ensures Latin1Encode(Latin1Decode(b)) == Some(b)
  {
    var s := Latin1Decode(b);
    assert Latin1Encode(s).value == b;
  }

  /** A name whose UTF-8 bytes were read as Latin-1 is restored exactly. */
  lemma RepairRestoresMisreadName(name: string)
    ensures Repair(Latin1Decode(EncodeUtf8(name))) == name
  {
    Latin1RoundTrip(EncodeUtf8(name));
    DecodeEncode(name);
  }

  /** ASCII bytes decode to the same characters. */
  lemma {:induction false} DecodeAscii(b: seq<byte>)
    requires forall i :: 0 <= i < |b| ==> b[i] < 0x80
    ensures DecodeUtf8(b) == Some(Latin1Decode(b))
  {
    if b != [] {
      DecodeAscii(b[1..]);
      assert Latin1Decode(b) == [b[0] as char] + Latin1Decode(b[1..]);
    }
  }

  /** A plain ASCII name is left as it is. */
  lemma RepairKeepsAscii(name: string)
    requires forall i :: 0 <= i < |name| ==> name[i] as int < 0x80
    ensures Repair(name) == name
  {
    var bytes := Latin1Encode(name).value;
    DecodeAscii(bytes);
    assert Latin1Decode(bytes) == name;
  }

  /** A byte from 0xC0 up can only start a character, so when it is the last
      byte or is not followed by a continuation byte, decoding fails. */
  lemma {:induction false} DecodeFailsAt(b: seq<byte>, i: nat)
    requires i < |b| && b[i] >= 0xC0
    requires i + 1 == |b| || !IsContinuation(b[i + 1])
    ensures DecodeUtf8(b) == None
    decreases |b|
  {
    match DecodeFirst(b)
    case None =>
    case Some((c, n)) =>
      assert n <= i;
      assert b[n..][i - n] == b[i];
      if i + 1 < |b| {
        assert b[n..][i - n + 1] == b[i + 1];
      }
      DecodeFailsAt(b[n..], i - n);
  }

  /** A name already decoded correctly is kept: when every character is
      Latin-1 and some character from U+00C0 up (every accented letter of
      Portuguese, as in "Maçã") is last or followed by a character outside
      U+0080..U+00BF, its Latin-1 bytes are not UTF-8. */
  lemma RepairKeepsLatin1Name(name: string, i: nat)
    requires forall k :: 0 <= k < |name| ==> name[k] as int < 256
    requires i < |name| && name[i] as int >= 0xC0
    requires i + 1 == |name| || !(0x80 <= name[i + 1] as int < 0xC0)
    ensures Repair(name) == name
  {
    var bytes := Latin1Encode(name).value;
    DecodeFailsAt(bytes, i);
  }
}
