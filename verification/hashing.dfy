/** The content hasher, `generate_md5`: open a file, stream its bytes through
    MD5 and render the 16-byte sum as lowercase hexadecimal. Reading the file
    and the MD5 function itself are parameters; the hex rendering is modelled. */
module Hashing {
  import opened Wrappers

  type byte = b: int | 0 <= b < 256

  /** An MD5 sum is always sixteen bytes. */
  type Md5Sum = s: seq<byte> | |s| == 16
    witness [0, 0, 0, 0, 0, 0, 0, 0, 0, 0, 0, 0, 0, 0, 0, 0]

  /** The lowercase hex character for a value below sixteen. */
  function HexDigit(n: nat): (c: char)
    requires n < 16
    ensures HexValue(c) == Some(n)
  {
    if n < 10 then ('0' as int + n) as char else ('a' as int + n - 10) as char
  }

  /** Two lowercase hex characters per byte, high nibble first
      (`hex.EncodeToString`). */
  function HexEncode(bs: seq<byte>): (s: string)
    ensures |s| == 2 * |bs|
    ensures forall i :: 0 <= i < |s| ==> HexValue(s[i]).Some?
    decreases |bs|
  {
    if |bs| == 0 then "" else [HexDigit(bs[0] / 16), HexDigit(bs[0] % 16)] + HexEncode(bs[1..])
  }

  /** Value of one lowercase hex character. */
  function HexValue(c: char): Option<nat> {
    if '0' <= c <= '9' then Some(c as int - '0' as int)
    else if 'a' <= c <= 'f' then Some(c as int - 'a' as int + 10)
    else None
  }

  /** Inverse of `HexEncode`: pairs of lowercase hex characters back to bytes;
      `None` for odd length or any other character. */
  function HexDecode(s: string): Option<seq<byte>>
    decreases |s|
  {
    if |s| == 0 then Some([])
    else if |s| == 1 then None
    else
      match (HexValue(s[0]), HexValue(s[1]), HexDecode(s[2..]))
      case (Some(hi), Some(lo), Some(rest)) =>
        assert hi < 16 && lo < 16;
        Some([hi * 16 + lo] + rest)
      case _ => None
  }

  lemma {:induction false} NibbleSplit(b: byte)
    ensures b / 16 < 16 && b == b / 16 * 16 + b % 16
  {
  }

  lemma {:induction false} NibbleJoin(hi: nat, lo: nat)
    requires hi < 16 && lo < 16
    ensures (hi * 16 + lo) / 16 == hi && (hi * 16 + lo) % 16 == lo
  {
  }

  /** Decoding a text that starts with two hex characters. */
  lemma {:induction false} DecodeStep(s: string, hi: nat, lo: nat)
    requires |s| >= 2 && HexValue(s[0]) == Some(hi) && HexValue(s[1]) == Some(lo)
    ensures hi < 16 && lo < 16
    ensures HexDecode(s) == if HexDecode(s[2..]).Some? then Some([hi * 16 + lo] + HexDecode(s[2..]).value) else None
  {
  }

  lemma {:induction false} EncodeStep(bs: seq<byte>)
    requires |bs| > 0
    ensures HexEncode(bs)[0] == HexDigit(bs[0] / 16) && HexEncode(bs)[1] == HexDigit(bs[0] % 16)
    ensures HexEncode(bs)[2..] == HexEncode(bs[1..])
  {
  }

  /** Decoding an encoding gives back the bytes. */
  lemma {:induction false} HexRoundTrip(bs: seq<byte>)
    ensures HexDecode(HexEncode(bs)) == Some(bs)
    decreases |bs|
  {
    if |bs| > 0 {
      var s := HexEncode(bs);
      var b := bs[0];
      var hi, lo := b / 16, b % 16;
      NibbleSplit(b);
      EncodeStep(bs);
      HexRoundTrip(bs[1..]);
      DecodeStep(s, hi, lo);
      assert [hi * 16 + lo] + bs[1..] == bs;
    }
  }

  /** Encoding a successful decoding gives back the text: the encoding is a
      bijection between byte strings and even-length lowercase hex texts. */
  lemma {:induction false} HexDecodeThenEncode(s: string, bs: seq<byte>)
    requires HexDecode(s) == Some(bs)
    ensures HexEncode(bs) == s
    decreases |s|
  {
    if |s| > 0 {
      var hi := HexValue(s[0]).value;
      var lo := HexValue(s[1]).value;
      DecodeStep(s, hi, lo);
      var rest := HexDecode(s[2..]).value;
      HexDecodeThenEncode(s[2..], rest);
      var b: byte := hi * 16 + lo;
      assert bs == [b] + rest;
      NibbleJoin(hi, lo);
      assert HexDigit(hi) == s[0] && HexDigit(lo) == s[1];
      assert HexEncode(bs) == [HexDigit(b / 16), HexDigit(b % 16)] + HexEncode(rest);
      assert s == [s[0], s[1]] + s[2..];
    }
  }

  /** Outcome of `generate_md5`: the hex text and whether an error occurred. */
  datatype Digest = Digest(hex: string, failed: bool)

  /** `generate_md5`. `read` yields the file's full content, or `None` when
      opening or reading it fails; `md5` is the MD5 sum of a byte string. On
      failure the text is empty. */
  function GenerateMd5(read: string -> Option<seq<byte>>, md5: seq<byte> -> Md5Sum, path: string): (d: Digest)
    ensures d.failed <==> read(path).None?
    ensures d.failed ==> d.hex == ""
    ensures !d.failed ==> |d.hex| == 32 && HexDecode(d.hex) == Some(md5(read(path).value))
  {
    match read(path)
    case None => Digest("", true)
    case Some(content) =>
      var sum := md5(content);
      HexRoundTrip(sum);
      Digest(HexEncode(sum), false)
  }

  /** The digest depends only on the bytes read, never on the path. */
  lemma {:induction false} SameContentSameDigest(read: string -> Option<seq<byte>>, md5: seq<byte> -> Md5Sum, p: string, q: string)
    requires read(p).Some? && read(p) == read(q)
    ensures GenerateMd5(read, md5, p) == GenerateMd5(read, md5, q)
    ensures GenerateMd5(read, md5, p).hex != ""
  {
  }
}
