/**
 * The `proctitle` decode pass of `decrypt_proctitle`: each event's
 * `proctitle` value loses its trailing newlines, is read as hexadecimal,
 * the bytes are read as ASCII and every NUL becomes a space; when any step
 * fails, the value is left exactly as it was.
 */
module Proctitle {
  import opened Wrappers
  import opened Tokenizer

  type Byte = b: int | 0 <= b < 256

  predicate IsHexDigit(c: char)
  {
    '0' <= c <= '9' || 'a' <= c <= 'f' || 'A' <= c <= 'F'
  }

  function HexValue(c: char): (v: nat)
    requires IsHexDigit(c)
    ensures v < 16
  {
    if '0' <= c <= '9' then c as int - '0' as int
    else if 'a' <= c <= 'f' then c as int - 'a' as int + 10
    else c as int - 'A' as int + 10
  }

  /** The lower-case digit `binascii.hexlify` writes for a value below 16. */
  function HexDigit(v: nat): (c: char)
    requires v < 16
    ensures IsHexDigit(c) && HexValue(c) == v
  {
    if v < 10 then ('0' as int + v) as char else ('a' as int + v - 10) as char
  }

  /** Text `binascii.unhexlify` accepts: an even number of hex digits. */
  predicate IsHexText(s: string)
  {
    |s| % 2 == 0 && forall i :: 0 <= i < |s| ==> IsHexDigit(s[i])
  }

  /** The byte spelled by the `i`-th pair of hex digits. */
  function PairValue(s: string, i: nat): Byte
    requires IsHexText(s) && i < |s| / 2
  {
    16 * HexValue(s[2 * i]) + HexValue(s[2 * i + 1])
  }

  /**
   * `binascii.unhexlify`: two hex digits, in either case, per byte. An odd
   * length or any other character is an error.
   */
  function Unhexlify(s: string): (r: Option<seq<Byte>>)
    ensures r.Some? <==> IsHexText(s)
    ensures r.Some? ==> |r.value| * 2 == |s| && forall i :: 0 <= i < |r.value| ==> r.value[i] == PairValue(s, i)
    decreases |s|
  {
    if |s| == 0 then Some([])
    else if |s| == 1 || !IsHexDigit(s[0]) || !IsHexDigit(s[1]) then None
    else
      match Unhexlify(s[2..])
      case None => None
      case Some(rest) =>
        assert forall i :: 0 <= i < |rest| ==> s[2..][2 * i] == s[2 * (i + 1)] && s[2..][2 * i + 1] == s[2 * (i + 1) + 1];
        Some([16 * HexValue(s[0]) + HexValue(s[1])] + rest)
  }

  /** `binascii.hexlify`: two lower-case hex digits per byte. */
  function Hexlify(bytes: seq<Byte>): (s: string)
    ensures |s| == 2 * |bytes| && forall i :: 0 <= i < |s| ==> IsHexDigit(s[i])
  {
    if bytes == [] then []
    else [HexDigit(bytes[0] / 16), HexDigit(bytes[0] % 16)] + Hexlify(bytes[1..])
  }

  lemma UnhexlifyCons(s: string)
    requires |s| >= 2 && IsHexDigit(s[0]) && IsHexDigit(s[1]) && Unhexlify(s[2..]).Some?
    ensures Unhexlify(s) == Some([16 * HexValue(s[0]) + HexValue(s[1])] + Unhexlify(s[2..]).value)
  {
  }

  lemma HexlifyCons(bytes: seq<Byte>)
    requires bytes != []
    ensures Hexlify(bytes)[2..] == Hexlify(bytes[1..])
    ensures IsHexDigit(Hexlify(bytes)[0]) && IsHexDigit(Hexlify(bytes)[1])
    ensures 16 * HexValue(Hexlify(bytes)[0]) + HexValue(Hexlify(bytes)[1]) == bytes[0]
  {
    var pair := [HexDigit(bytes[0] / 16), HexDigit(bytes[0] % 16)];
    assert Hexlify(bytes) == pair + Hexlify(bytes[1..]);
    assert (pair + Hexlify(bytes[1..]))[2..] == Hexlify(bytes[1..]);
  }

  /** Decoding undoes encoding: `unhexlify(hexlify(b)) == b`. */
  lemma {:induction false} UnhexlifyHexlify(bytes: seq<Byte>)
    ensures Unhexlify(Hexlify(bytes)) == Some(bytes)
    decreases |bytes|
  {
    if bytes != [] {
      var hex := Hexlify(bytes);
      HexlifyCons(bytes);
      UnhexlifyHexlify(bytes[1..]);
      assert Unhexlify(hex[2..]) == Some(bytes[1..]);
      UnhexlifyCons(hex);
      assert 16 * HexValue(hex[0]) + HexValue(hex[1]) == bytes[0];
      assert [bytes[0]] + bytes[1..] == bytes;
    }
  }

  /** `str.rstrip("\n")`: the value with every trailing newline removed. */
  function StripTrailingNewlines(s: string): (r: string)
    ensures |r| <= |s| && r == s[..|r|]
    ensures forall i :: |r| <= i < |s| ==> s[i] == '\n'
    ensures r == [] || r[|r| - 1] != '\n'
  {
    if s != [] && s[|s| - 1] == '\n' then StripTrailingNewlines(s[..|s| - 1]) else s
  }

  /** `bytes.decode("ascii")`: one character per byte, an error on any byte of 0x80 or more. */
  function AsciiDecode(bytes: seq<Byte>): (r: Option<string>)
    ensures r.Some? <==> forall i :: 0 <= i < |bytes| ==> bytes[i] < 128
    ensures r.Some? ==> |r.value| == |bytes| && forall i :: 0 <= i < |bytes| ==> r.value[i] as int == bytes[i]
  {
    if forall i :: 0 <= i < |bytes| ==> bytes[i] < 128 then
      Some(seq(|bytes|, i requires 0 <= i < |bytes| => bytes[i] as char))
    else None
  }

  /** `str.replace("\u0000", " ")`: every NUL becomes a space and every other character stays. */
  function ReplaceNul(s: string): (r: string)
    ensures |r| == |s| && '\0' !in r
    ensures forall i :: 0 <= i < |s| ==> r[i] == (if s[i] == '\0' then ' ' else s[i])
  {
    seq(|s|, i requires 0 <= i < |s| => if s[i] == '\0' then ' ' else s[i])
  }

  /**
   * The decode expression of `decrypt_proctitle`: `None` where
   * `decrypt_proctitle`'s bare `except` swallows an error.
   */
  function DecodeProctitle(value: string): (r: Option<string>)
    ensures var t := StripTrailingNewlines(value);
      r.Some? <==> IsHexText(t) && forall i :: 0 <= i < |t| / 2 ==> PairValue(t, i) < 128
    ensures var t := StripTrailingNewlines(value);
      r.Some? ==> (IsHexText(t) && |r.value| * 2 == |t| &&
        forall i :: 0 <= i < |r.value| ==> r.value[i] as int == if PairValue(t, i) == 0 then ' ' as int else PairValue(t, i))
    ensures r.Some? ==> '\0' !in r.value
  {
    match Unhexlify(StripTrailingNewlines(value))
    case None => None
    case Some(bytes) =>
      match AsciiDecode(bytes)
      case None => None
      case Some(text) => Some(ReplaceNul(text))
  }

  /** The event after the decode pass: only `proctitle` may change, and only when it decodes. */
  function DecryptEvent(e: FieldMap): (r: FieldMap)
    ensures r.Keys == e.Keys
    ensures forall k :: k in e && k != "proctitle" ==> r[k] == e[k]
    ensures "proctitle" !in e ==> r == e
    ensures "proctitle" in e && DecodeProctitle(e["proctitle"]).None? ==> r == e
    ensures "proctitle" in e && DecodeProctitle(e["proctitle"]).Some? ==> r["proctitle"] == DecodeProctitle(e["proctitle"]).value
  {
    if "proctitle" in e then
      match DecodeProctitle(e["proctitle"])
      case Some(text) => e["proctitle" := text]
      case None => e
    else e
  }

  /**
   * `decrypt_proctitle`: overwrite each event's `proctitle` with its decoded
   * text, in place; an event whose value does not decode is left alone.
   */
  method DecryptProctitle(logs: array<FieldMap>)
    modifies logs
    ensures forall i :: 0 <= i < logs.Length ==> logs[i] == DecryptEvent(old(logs[i]))
  {
    for i := 0 to logs.Length
      invariant forall j :: 0 <= j < i ==> logs[j] == DecryptEvent(old(logs[j]))
      invariant forall j :: i <= j < logs.Length ==> logs[j] == old(logs[j])
    {
      var l := logs[i];
      if "proctitle" in l {
        var decoded := DecodeProctitle(l["proctitle"]);
        if decoded.Some? {
          logs[i] := l["proctitle" := decoded.value];
        }
      }
    }
  }

  /** The bytes of an ASCII text, one per character. */
  function AsciiBytes(text: string): (bytes: seq<Byte>)
    requires forall i :: 0 <= i < |text| ==> text[i] as int < 128
  {
    seq(|text|, i requires 0 <= i < |text| => text[i] as int)
  }

  function Newlines(k: nat): string
  {
    seq(k, _ => '\n')
  }

  /** Stripping removes exactly the newlines appended to a value that does not itself end in one. */
  lemma {:induction false} StripAppendedNewlines(t: string, k: nat)
    requires t == [] || t[|t| - 1] != '\n'
    ensures StripTrailingNewlines(t + Newlines(k)) == t
    decreases k
  {
    if k == 0 {
      assert t + Newlines(0) == t;
    } else {
      var shorter := t + Newlines(k - 1);
      assert Newlines(k) == Newlines(k - 1) + ['\n'];
      assert t + Newlines(k) == shorter + ['\n'];
      assert (shorter + ['\n'])[..|shorter|] == shorter;
      StripAppendedNewlines(t, k - 1);
    }
  }

  /**
   * The round trip the decode pass completes: the hex encoding of an ASCII
   * text, followed by any number of newlines, decodes to that text with
   * every NUL turned into a space.
   */
  lemma DecodeHexlified(text: string, k: nat)
    requires forall i :: 0 <= i < |text| ==> text[i] as int < 128
    ensures DecodeProctitle(Hexlify(AsciiBytes(text)) + Newlines(k)) == Some(ReplaceNul(text))
  {
    var bytes := AsciiBytes(text);
    var hex := Hexlify(bytes);
    assert hex == [] || IsHexDigit(hex[|hex| - 1]);
    StripAppendedNewlines(hex, k);
    UnhexlifyHexlify(bytes);
    var decoded := AsciiDecode(bytes);
    assert decoded.Some?;
    assert forall i :: 0 <= i < |text| ==> decoded.value[i] == text[i];
    assert decoded.value == text;
  }

  lemma CommandLineText()
    ensures forall i :: 0 <= i < |"/usr/bin/ls\0-la"| ==> "/usr/bin/ls\0-la"[i] as int < 128
    ensures ReplaceNul("/usr/bin/ls\0-la") == "/usr/bin/ls -la"
  {
    var text, spaced := "/usr/bin/ls\0-la", ReplaceNul("/usr/bin/ls\0-la");
    assert |spaced| == |"/usr/bin/ls -la"|;
    assert forall i :: 0 <= i < |text| ==> spaced[i] == "/usr/bin/ls -la"[i];
  }

  /** A command line `/usr/bin/ls<NUL>-la`, hex encoded with its newline, decodes to `/usr/bin/ls -la`. */
  lemma DecodeCommandLine()
    ensures DecodeProctitle(Hexlify(AsciiBytes("/usr/bin/ls\0-la")) + "\n") == Some("/usr/bin/ls -la")
  {
    CommandLineText();
    DecodeHexlified("/usr/bin/ls\0-la", 1);
    assert Newlines(1) == "\n";
  }

  /** A value that is not hex, of odd length, or that decodes to a byte of 0x80 or more, is kept as it is, newline included. */
  lemma FailuresKeepValue()
    ensures DecryptEvent(map["proctitle" := "zzzz"]) == map["proctitle" := "zzzz"]
    ensures DecryptEvent(map["proctitle" := "616\n"]) == map["proctitle" := "616\n"]
    ensures DecryptEvent(map["proctitle" := "ff\n"]) == map["proctitle" := "ff\n"]
  {
    assert !IsHexDigit("zzzz"[0]);
    var t := StripTrailingNewlines("616\n");
    assert t == "616";
    var u := StripTrailingNewlines("ff\n");
    assert u == "ff";
    assert PairValue(u, 0) == 255;
  }
}
