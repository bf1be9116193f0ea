/** FileStorageService.CalculateHash. SHA-1 itself is a parameter of the model;
    only the formatting of the digest as text is modelled here. */
module ContentHash {
  import opened Common
  import opened Strings

  /** A SHA-1 digest: 20 bytes. */
  type Digest = d: Bytes | |d| == 20 witness seq(20, i => 0)

  type nibble = n: int | 0 <= n < 16

  function UpperDigit(n: nibble): char {
    if n < 10 then ('0' as int + n) as char else ('A' as int + n - 10) as char
  }

  function LowerDigit(n: nibble): char {
    if n < 10 then ('0' as int + n) as char else ('a' as int + n - 10) as char
  }

  /** BitConverter.ToString: two upper-case hex digits per byte, pairs joined by '-'. */
  function BitConverterToString(b: Bytes): string {
    if b == [] then ""
    else if |b| == 1 then [UpperDigit(b[0] / 16), UpperDigit(b[0] % 16)]
    else [UpperDigit(b[0] / 16), UpperDigit(b[0] % 16), '-'] + BitConverterToString(b[1..])
  }

  /** s.Replace("-", "") */
  function RemoveDashes(s: string): string {
    if s == [] then ""
    else (if s[0] == '-' then "" else [s[0]]) + RemoveDashes(s[1..])
  }

  /** The text CalculateHash makes of a digest:
      BitConverter.ToString(hash).Replace("-", "").ToLower(). */
  function FormatHash(digest: Bytes): string {
    ToLower(RemoveDashes(BitConverterToString(digest)))
  }

  /** CalculateHash: the formatted SHA-1 of the stream's content. Reading the
      stream and seeking back to its start leave the content as it was. */
  function CalculateHash(sha1: Bytes -> Digest, content: Bytes): string {
    FormatHash(sha1(content))
  }

  /** The reference definition: two lower-case hex digits per byte. */
  function LowerHex(b: Bytes): string {
    if b == [] then "" else [LowerDigit(b[0] / 16), LowerDigit(b[0] % 16)] + LowerHex(b[1..])
  }

  /** The value of a lower-case hex digit. */
  function HexValue(c: char): Option<nibble> {
    if '0' <= c <= '9' then Some(c as int - '0' as int)
    else if 'a' <= c <= 'f' then Some(c as int - 'a' as int + 10)
    else None
  }

  /** Reads lower-case hex text back into bytes. */
  function ParseHex(s: string): Option<Bytes>
    decreases |s|
  {
    if s == [] then Some([])
    else if |s| == 1 then None
    else match (HexValue(s[0]), HexValue(s[1]), ParseHex(s[2..]))
      case (Some(hi), Some(lo), Some(rest)) => Some([hi as int * 16 + lo as int] + rest)
      case _ => None
  }

  lemma {:induction false} RemoveDashesAppend(a: string, b: string)
    ensures RemoveDashes(a + b) == RemoveDashes(a) + RemoveDashes(b)
    decreases |a|
  {
    if a == [] {
      assert a + b == b;
    } else {
      assert (a + b)[1..] == a[1..] + b;
      RemoveDashesAppend(a[1..], b);
    }
  }

  lemma ToLowerAppend(a: string, b: string)
    ensures ToLower(a + b) == ToLower(a) + ToLower(b)
  {
  }

  /** The two digits of one byte contain no dash and lower to the reference digits. */
  lemma FormatPair(hi: nibble, lo: nibble)
    ensures RemoveDashes([UpperDigit(hi), UpperDigit(lo)]) == [UpperDigit(hi), UpperDigit(lo)]
    ensures ToLower([UpperDigit(hi), UpperDigit(lo)]) == [LowerDigit(hi), LowerDigit(lo)]
  {
    var pair := [UpperDigit(hi), UpperDigit(lo)];
    assert pair[1..] == [UpperDigit(lo)] && pair[1..][1..] == "";
    assert RemoveDashes(pair[1..]) == [UpperDigit(lo)] + RemoveDashes("");
  }

  /** The source's three-step formatting equals the reference definition. */
  lemma {:induction false} FormatHashIsLowerHex(b: Bytes)
    ensures FormatHash(b) == LowerHex(b)
  {
    if b != [] {
      var pair := [UpperDigit(b[0] / 16), UpperDigit(b[0] % 16)];
      FormatPair(b[0] / 16, b[0] % 16);
      if |b| == 1 {
        assert LowerHex(b[1..]) == "";
      } else {
        FormatHashIsLowerHex(b[1..]);
        var rest := BitConverterToString(b[1..]);
        assert BitConverterToString(b) == pair + ("-" + rest);
        RemoveDashesAppend(pair, "-" + rest);
        RemoveDashesAppend("-", rest);
        ToLowerAppend(pair, RemoveDashes(rest));
      }
    }
  }

  /** Parsing the reference text gives the bytes back. */
  lemma {:induction false} ParseLowerHex(b: Bytes)
    ensures ParseHex(LowerHex(b)) == Some(b)
  {
    if b != [] {
      var s := LowerHex(b);
      ParseLowerHex(b[1..]);
      assert s[2..] == LowerHex(b[1..]);
      assert HexValue(s[0]) == Some(b[0] / 16);
      assert HexValue(s[1]) == Some(b[0] % 16);
      assert b == [b[0]] + b[1..];
    }
  }

  /** The hash text is 40 lower-case hex digits, and different digests give
      different texts, so comparing texts compares digests. */
  lemma FormatHashFaithful(d: Digest, e: Digest)
    ensures |FormatHash(d)| == 40
    ensures forall i :: 0 <= i < |FormatHash(d)| ==> FormatHash(d)[i] in "0123456789abcdef"
    ensures FormatHash(d) == FormatHash(e) <==> d == e
  {
    FormatHashIsLowerHex(d);
    FormatHashIsLowerHex(e);
    LowerHexShape(d);
    ParseLowerHex(d);
    ParseLowerHex(e);
  }

  lemma {:induction false} LowerHexShape(b: Bytes)
    ensures |LowerHex(b)| == 2 * |b|
    ensures forall i :: 0 <= i < |LowerHex(b)| ==> LowerHex(b)[i] in "0123456789abcdef"
  {
    if b != [] {
      LowerHexShape(b[1..]);
      var s := LowerHex(b);
      forall i | 0 <= i < |s| ensures s[i] in "0123456789abcdef" {
        if i < 2 {
          var n: nibble := if i == 0 then b[0] / 16 else b[0] % 16;
          assert s[i] == LowerDigit(n);
          assert "0123456789abcdef"[n] == LowerDigit(n);
        } else {
          assert s[i] == LowerHex(b[1..])[i - 2];
        }
      }
    }
  }
}
