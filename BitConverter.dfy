/**
 * The textual form of a digest, as produced by .NET's `BitConverter.ToString(byte[])`:
 * each byte becomes two upper-case hexadecimal digits, and consecutive bytes are
 * separated by a single `-` ("3A-F2-07"). An empty array gives the empty string.
 *
 * `Parse` is the inverse used to state what the rendering means: it accepts exactly
 * the strings `Render` produces and gives back the bytes.
 */
module BitConverter {
  import opened Wrappers

  /** An unsigned 8-bit value. */
  type Byte = b: int | 0 <= b < 256

  /** The upper-case hexadecimal digit for a value below 16. */
  function HexDigit(n: int): (c: char)
    requires 0 <= n < 16
    ensures IsUpperHexDigit(c)
  {
    if n < 10 then ('0' as int + n) as char else ('A' as int + n - 10) as char
  }

  predicate IsUpperHexDigit(c: char) {
    '0' <= c <= '9' || 'A' <= c <= 'F'
  }

  /** The value of an upper-case hexadecimal digit; lower-case and other characters are rejected. */
  function HexValue(c: char): (r: Option<int>)
    ensures r.Some? <==> IsUpperHexDigit(c)
    ensures r.Some? ==> 0 <= r.value < 16 && HexDigit(r.value) == c
  {
    if '0' <= c <= '9' then Some(c as int - '0' as int)
    else if 'A' <= c <= 'F' then Some(c as int - 'A' as int + 10)
    else None
  }

  /** The two digits of one byte, high nibble first. */
  function HexPair(b: Byte): (s: string)
    ensures |s| == 2 && IsUpperHexDigit(s[0]) && IsUpperHexDigit(s[1])
  {
    [HexDigit(b / 16), HexDigit(b % 16)]
  }

  /** `BitConverter.ToString`: the rendering of a byte array. */
  function Render(bytes: seq<Byte>): (s: string)
    ensures |s| == if bytes == [] then 0 else 3 * |bytes| - 1
  {
    if bytes == [] then ""
    else if |bytes| == 1 then HexPair(bytes[0])
    else HexPair(bytes[0]) + "-" + Render(bytes[1..])
  }

  /** The character at position i of a rendering: a separator at every third place, a digit elsewhere. */
  ghost predicate WellFormedAt(s: string, i: int)
    requires 0 <= i < |s|
  {
    if i % 3 == 2 then s[i] == '-' else IsUpperHexDigit(s[i])
  }

  /** The shape of every rendering: upper-case hex pairs separated by `-`. */
  ghost predicate WellFormed(s: string) {
    forall i | 0 <= i < |s| :: WellFormedAt(s, i)
  }

  /** The byte whose two digits are given, if both are upper-case hex digits. */
  function ParsePair(hi: char, lo: char): (r: Option<Byte>)
    ensures r.Some? <==> IsUpperHexDigit(hi) && IsUpperHexDigit(lo)
    ensures r.Some? ==> HexPair(r.value) == [hi, lo]
  {
    match (HexValue(hi), HexValue(lo))
    case (Some(h), Some(l)) =>
      var b: Byte := h * 16 + l;
      assert b / 16 == h && b % 16 == l;
      Some(b)
    case _ => None
  }

  /** The inverse of `Render`: `None` for any string that is not a rendering. */
  function Parse(s: string): (r: Option<seq<Byte>>)
  {
    if s == [] then Some([])
    else if |s| < 2 then None
    else match ParsePair(s[0], s[1])
      case None => None
      case Some(b) =>
        if |s| == 2 then Some([b])
        else if |s| > 3 && s[2] == '-' then
          match Parse(s[3..])
          case None => None
          case Some(rest) => Some([b] + rest)
        else None
  }

  lemma ParsePairOfHexPair(b: Byte)
    ensures ParsePair(HexPair(b)[0], HexPair(b)[1]) == Some(b)
  {
  }

  /** Every rendering has the documented shape. */
  lemma {:induction false} RenderWellFormed(bytes: seq<Byte>)
    ensures WellFormed(Render(bytes))
  {
    if |bytes| > 1 {
      var rest := Render(bytes[1..]);
      RenderWellFormed(bytes[1..]);
      var s := Render(bytes);
      assert s == HexPair(bytes[0]) + "-" + rest;
      forall i | 0 <= i < |s| ensures WellFormedAt(s, i) {
        if i >= 3 {
          assert s[i] == rest[i - 3];
          assert WellFormedAt(rest, i - 3);
          assert (i - 3) % 3 == i % 3;
        }
      }
    }
  }

  /** Decoding a rendering gives back the rendered bytes. */
  lemma {:induction false} ParseRender(bytes: seq<Byte>)
    ensures Parse(Render(bytes)) == Some(bytes)
  {
    if bytes != [] {
      ParsePairOfHexPair(bytes[0]);
      var s := Render(bytes);
      assert s[0] == HexPair(bytes[0])[0] && s[1] == HexPair(bytes[0])[1];
      assert ParsePair(s[0], s[1]) == Some(bytes[0]);
      if |bytes| > 1 {
        assert s[2] == '-' && s[3..] == Render(bytes[1..]);
        ParseRender(bytes[1..]);
        assert [bytes[0]] + bytes[1..] == bytes;
      } else {
        assert bytes == [bytes[0]];
      }
    }
  }

  /** Only renderings decode: whatever `Parse` accepts is the rendering of what it returns. */
  lemma {:induction false} RenderParse(s: string)
    requires Parse(s).Some?
    ensures Render(Parse(s).value) == s
  {
    if s != [] {
      var b := ParsePair(s[0], s[1]).value;
      if |s| > 2 {
        var rest := Parse(s[3..]).value;
        RenderParse(s[3..]);
        assert Parse(s).value == [b] + rest;
        assert ([b] + rest)[1..] == rest;
        assert s == [s[0], s[1]] + "-" + s[3..];
      }
    }
  }

  /** Every well-formed text of a rendering's length decodes, so the renderings are exactly the well-formed texts. */
  lemma {:induction false} WellFormedParses(s: string)
    requires WellFormed(s)
    requires |s| == 0 || |s| % 3 == 2
    ensures Parse(s).Some?
  {
    if s != [] {
      assert WellFormedAt(s, 0) && WellFormedAt(s, 1);
      if |s| > 2 {
        assert WellFormedAt(s, 2);
        var rest := s[3..];
        forall i | 0 <= i < |rest| ensures WellFormedAt(rest, i) {
          assert WellFormedAt(s, i + 3);
          assert (i + 3) % 3 == i % 3;
        }
        WellFormedParses(rest);
      }
    }
  }
}
