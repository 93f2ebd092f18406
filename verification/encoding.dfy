/** The char/byte conversions used to store serialized object lists.

    A C# `char` is one UTF-16 code unit. `GetBytes` block-copies the char array
    into a byte array, which on the little-endian targets of the application
    puts the low byte of every code unit first; `GetString` copies back. */
module Encoding {
  import opened Wrappers

  type byte = x: int | 0 <= x < 0x100
  type CodeUnit = x: int | 0 <= x < 0x1_0000

  /** A C# string: a sequence of UTF-16 code units. */
  type Utf16 = seq<CodeUnit>

  /** Low byte of a code unit. */
  function Lo(c: CodeUnit): byte { c % 0x100 }

  /** High byte of a code unit. */
  function Hi(c: CodeUnit): byte { c / 0x100 }

  /** The code unit whose low byte is `lo` and high byte is `hi`. */
  function Unit(lo: byte, hi: byte): (c: CodeUnit)
    ensures Lo(c) == lo && Hi(c) == hi
  {
    lo + 0x100 * hi
  }

  /** `CacheService.GetBytes`: two bytes per code unit, low byte first. */
  function GetBytes(s: Utf16): (r: seq<byte>)
    ensures |r| == 2 * |s|
    ensures forall i :: 0 <= i < |s| ==> r[2 * i] == Lo(s[i]) && r[2 * i + 1] == Hi(s[i])
  {
    if s == [] then []
    else
      var rest := GetBytes(s[1..]);
      assert forall i :: 1 <= i < |s| ==> s[i] == s[1..][i - 1];
      [Lo(s[0]), Hi(s[0])] + rest
  }

  /** Pairs of bytes read back as code units; the inverse of `GetBytes`. */
  function Units(b: seq<byte>): (r: Utf16)
    requires |b| % 2 == 0
    ensures 2 * |r| == |b|
    ensures forall i :: 0 <= i < |r| ==> r[i] == Unit(b[2 * i], b[2 * i + 1])
  {
    if b == [] then []
    else
      var tail := b[2..];
      var rest := Units(tail);
      var r := [Unit(b[0], b[1])] + rest;
      assert forall i :: 0 <= i < |r| ==> r[i] == Unit(b[2 * i], b[2 * i + 1]) by {
        forall i | 1 <= i < |r|
          ensures r[i] == Unit(b[2 * i], b[2 * i + 1])
        {
          var j := i - 1;
          assert r[i] == rest[j] == Unit(tail[2 * j], tail[2 * j + 1]);
          assert tail[2 * j] == b[2 * i] && tail[2 * j + 1] == b[2 * i + 1];
        }
      }
      r
  }

  /** `CacheService.GetString`: an array of |b| / 2 chars receives a block copy
      of all |b| bytes, which throws for an odd length (modelled as None). */
  function GetString(b: seq<byte>): (r: Option<Utf16>)
    ensures r.Some? <==> |b| % 2 == 0
    ensures r.Some? ==> 2 * |r.value| == |b|
  {
    if |b| % 2 == 1 then None else Some(Units(b))
  }

  /** Decoding what was encoded gives back the original text. */
  lemma {:induction false} GetStringOfGetBytes(s: Utf16)
    ensures GetString(GetBytes(s)) == Some(s)
  {
    var b := GetBytes(s);
    var t := Units(b);
    assert |t| == |s|;
    forall i | 0 <= i < |s|
      ensures t[i] == s[i]
    {
      assert b[2 * i] == Lo(s[i]) && b[2 * i + 1] == Hi(s[i]);
    }
    assert t == s;
  }

  /** Encoding what was decoded gives back the original bytes. */
  lemma {:induction false} GetBytesOfGetString(b: seq<byte>)
    requires |b| % 2 == 0
    ensures GetString(b).Some? && GetBytes(GetString(b).value) == b
  {
    var s := Units(b);
    var r := GetBytes(s);
    assert |r| == |b|;
    forall k | 0 <= k < |b|
      ensures r[k] == b[k]
    {
      var i := k / 2;
      assert s[i] == Unit(b[2 * i], b[2 * i + 1]);
      if k % 2 == 0 {
        assert k == 2 * i;
      } else {
        assert k == 2 * i + 1;
      }
    }
    assert r == b;
  }
}
