/**
 * Wide text as the wrapper handles it: Rust strings (sequences of Unicode
 * scalar values, here Dafny `string`), their UTF-16 encoding as sent to the
 * native library, the strict and the lossy decoding back, the UTF-8 byte
 * length Rust uses for `str::len` and `String::truncate`, the search for the
 * terminating NUL in a fixed-width buffer, and ASCII case folding.
 */
module Text {
  import opened Units

  predicate IsHighSurrogate(u: u16) { 0xD800 <= u < 0xDC00 }
  predicate IsLowSurrogate(u: u16) { 0xDC00 <= u < 0xE000 }
  predicate IsSurrogate(u: u16) { 0xD800 <= u < 0xE000 }

  /** U+FFFD, which lossy decoding puts in place of an unpaired surrogate. */
  const REPLACEMENT: char := '\U{FFFD}'

  /** The character a single non-surrogate unit stands for. */
  function UnitChar(u: u16): char
    requires !IsSurrogate(u)
  {
    (u as int) as char
  }

  /** The supplementary-plane character a surrogate pair stands for. */
  function PairChar(hi: u16, lo: u16): (c: char)
    requires IsHighSurrogate(hi) && IsLowSurrogate(lo)
    ensures c as int >= 0x1_0000
  {
    (0x1_0000 + (hi as int - 0xD800) * 0x400 + (lo as int - 0xDC00)) as char
  }

  /** UTF-16 encoding of one character: one unit, or a surrogate pair. */
  function EncodeChar(c: char): (units: seq<u16>)
    ensures 1 <= |units| <= 2
  {
    var v := c as int;
    if v < 0x1_0000 then [v as u16]
    else [(0xD800 + (v - 0x1_0000) / 0x400) as u16, (0xDC00 + (v - 0x1_0000) % 0x400) as u16]
  }

  /** A surrogate pair decodes to the character that encodes back to it. */
  lemma PairCharEncodes(hi: u16, lo: u16)
    requires IsHighSurrogate(hi) && IsLowSurrogate(lo)
    ensures EncodeChar(PairChar(hi, lo)) == [hi, lo]
  {
    var v := PairChar(hi, lo) as int - 0x1_0000;
    assert v == (hi as int - 0xD800) * 0x400 + (lo as int - 0xDC00);
    assert v / 0x400 == hi as int - 0xD800;
    assert v % 0x400 == lo as int - 0xDC00;
  }

  /** `str::encode_utf16`, without terminator. */
  function Encode(s: string): seq<u16>
  {
    if |s| == 0 then [] else EncodeChar(s[0]) + Encode(s[1..])
  }

  /** `String::from_utf16`: fails on an unpaired surrogate. */
  function Decode(u: seq<u16>): Option<string>
  {
    if |u| == 0 then Some([])
    else if IsHighSurrogate(u[0]) && |u| >= 2 && IsLowSurrogate(u[1]) then
      match Decode(u[2..])
      case None => None
      case Some(rest) => Some([PairChar(u[0], u[1])] + rest)
    else if IsSurrogate(u[0]) then None
    else
      match Decode(u[1..])
      case None => None
      case Some(rest) => Some([UnitChar(u[0])] + rest)
  }

  /** Whether the first two units form a surrogate pair. */
  predicate StartsPair(u: seq<u16>)
  {
    |u| >= 2 && IsHighSurrogate(u[0]) && IsLowSurrogate(u[1])
  }

  /** The character lossy decoding makes of the first unit or pair. */
  function LossyHead(u: seq<u16>): char
    requires |u| > 0
  {
    if StartsPair(u) then PairChar(u[0], u[1])
    else if IsSurrogate(u[0]) then REPLACEMENT
    else UnitChar(u[0])
  }

  /** How many units the first character of lossy decoding takes. */
  function LossyWidth(u: seq<u16>): (w: nat)
    ensures 1 <= w <= 2
  {
    if StartsPair(u) then 2 else 1
  }

  /** `String::from_utf16_lossy`: an unpaired surrogate becomes U+FFFD. */
  function DecodeLossy(u: seq<u16>): string
  {
    if |u| == 0 then []
    else [LossyHead(u)] + DecodeLossy(u[LossyWidth(u)..])
  }

  lemma DecodeEncodeChar(c: char, rest: seq<u16>)
    ensures Decode(EncodeChar(c) + rest)
         == (match Decode(rest) case None => None case Some(t) => Some([c] + t))
  {
    var u := EncodeChar(c) + rest;
    var v := c as int;
    if v < 0x1_0000 {
      assert u[1..] == rest;
    } else {
      assert u[2..] == rest;
      var hi := u[0];
      var lo := u[1];
      assert (hi as int - 0xD800) * 0x400 + (lo as int - 0xDC00) == v - 0x1_0000;
    }
  }

  /** Decoding an encoding gives the string back. */
  lemma {:induction false} DecodeEncode(s: string)
    ensures Decode(Encode(s)) == Some(s)
  {
    if |s| > 0 {
      DecodeEncode(s[1..]);
      DecodeEncodeChar(s[0], Encode(s[1..]));
      assert [s[0]] + s[1..] == s;
    }
  }

  /** Encoding is injective, a consequence of the round trip. */
  lemma EncodeInjective(s: string, t: string)
    requires Encode(s) == Encode(t)
    ensures s == t
  {
    DecodeEncode(s);
    DecodeEncode(t);
  }

  /** Where strict decoding succeeds, lossy decoding gives the same text. */
  lemma {:induction false} DecodeLossyAgrees(u: seq<u16>)
    requires Decode(u).Some?
    ensures DecodeLossy(u) == Decode(u).value
  {
    if |u| > 0 {
      if IsHighSurrogate(u[0]) && |u| >= 2 && IsLowSurrogate(u[1]) {
        DecodeLossyAgrees(u[2..]);
      } else {
        DecodeLossyAgrees(u[1..]);
      }
    }
  }

  /** The first unit or pair is decoded before the rest. */
  lemma LossyStep(u: seq<u16>)
    requires |u| > 0
    ensures LossyWidth(u) <= |u|
    ensures DecodeLossy(u) == [LossyHead(u)] + DecodeLossy(u[LossyWidth(u)..])
  {
  }

  /** Appending units that do not start with a low surrogate changes
      neither the first character nor how many units it takes. */
  lemma HeadUnchanged(a: seq<u16>, b: seq<u16>)
    requires |a| > 0
    requires |b| == 0 || !IsLowSurrogate(b[0])
    ensures LossyWidth(a + b) == LossyWidth(a) <= |a|
    ensures LossyHead(a + b) == LossyHead(a)
  {
    var u := a + b;
    assert u[0] == a[0];
    if |a| >= 2 {
      assert u[1] == a[1];
    } else if |b| > 0 {
      assert u[1] == b[0];
    }
  }

  /** Decoding `a + b` starts with the first character of `a`, and goes on
      with the rest of `a` followed by `b`. */
  lemma LossyHeadOfAppend(a: seq<u16>, b: seq<u16>)
    requires |a| > 0
    requires |b| == 0 || !IsLowSurrogate(b[0])
    ensures LossyWidth(a) <= |a|
    ensures DecodeLossy(a + b) == [LossyHead(a)] + DecodeLossy(a[LossyWidth(a)..] + b)
  {
    HeadUnchanged(a, b);
    LossyStep(a + b);
    DropOfAppend(a, b, LossyWidth(a));
  }

  /** Dropping a prefix of `a` from `a + b`. */
  lemma DropOfAppend<T>(a: seq<T>, b: seq<T>, n: nat)
    requires n <= |a|
    ensures (a + b)[n..] == a[n..] + b
  {
  }

  /** Lossy decoding may be split before any unit that is not a low surrogate. */
  lemma {:induction false} DecodeLossySplit(a: seq<u16>, b: seq<u16>)
    requires |b| == 0 || !IsLowSurrogate(b[0])
    ensures DecodeLossy(a + b) == DecodeLossy(a) + DecodeLossy(b)
  {
    if |a| == 0 {
      assert a + b == b;
    } else {
      LossyHeadOfAppend(a, b);
      LossyStep(a);
      var rest := a[LossyWidth(a)..];
      DecodeLossySplit(rest, b);
      AppendAssoc([LossyHead(a)], DecodeLossy(rest), DecodeLossy(b));
    }
  }

  /** Concatenation is associative. */
  lemma AppendAssoc<T>(x: seq<T>, y: seq<T>, z: seq<T>)
    ensures x + (y + z) == (x + y) + z
  {
  }

  /** The encoding holds a zero unit exactly when the string holds U+0000. */
  lemma {:induction false} EncodeZero(s: string)
    ensures 0 in Encode(s) <==> '\0' in s
  {
    if |s| > 0 {
      EncodeZero(s[1..]);
      assert s == [s[0]] + s[1..];
      assert Encode(s) == EncodeChar(s[0]) + Encode(s[1..]);
    }
  }

  predicate IsAscii(s: string) { forall i :: 0 <= i < |s| ==> s[i] as int < 0x80 }
  predicate IsAsciiUnits(u: seq<u16>) { forall i :: 0 <= i < |u| ==> u[i] < 0x80 }

  /** An ASCII string is encoded unit for character. */
  lemma {:induction false} EncodeAscii(s: string)
    requires IsAscii(s)
    ensures |Encode(s)| == |s|
    ensures forall i :: 0 <= i < |s| ==> Encode(s)[i] as int == s[i] as int
  {
    if |s| > 0 {
      EncodeAscii(s[1..]);
    }
  }

  /** ASCII units decode character for unit. */
  lemma {:induction false} DecodeLossyAscii(u: seq<u16>)
    requires IsAsciiUnits(u)
    ensures |DecodeLossy(u)| == |u|
    ensures forall i :: 0 <= i < |u| ==> DecodeLossy(u)[i] as int == u[i] as int
  {
    if |u| > 0 {
      DecodeLossyAscii(u[1..]);
    }
  }

  /** Number of bytes the UTF-8 encoding of `c` takes. */
  function Utf8Width(c: char): (w: nat)
    ensures 1 <= w <= 4
    ensures w == 1 <==> c as int < 0x80
  {
    var v := c as int;
    if v < 0x80 then 1 else if v < 0x800 then 2 else if v < 0x1_0000 then 3 else 4
  }

  /** `str::len`: the length of the UTF-8 encoding in bytes. */
  function Utf8Length(s: string): nat
  {
    if |s| == 0 then 0 else Utf8Width(s[0]) + Utf8Length(s[1..])
  }

  lemma {:induction false} Utf8LengthAppend(a: string, b: string)
    ensures Utf8Length(a + b) == Utf8Length(a) + Utf8Length(b)
  {
    if |a| == 0 {
      assert a + b == b;
    } else {
      assert (a + b)[1..] == a[1..] + b;
      Utf8LengthAppend(a[1..], b);
    }
  }

  /** An ASCII string takes one byte per character. */
  lemma {:induction false} Utf8LengthAscii(s: string)
    requires IsAscii(s)
    ensures Utf8Length(s) == |s|
  {
    if |s| > 0 {
      Utf8LengthAscii(s[1..]);
    }
  }

  /** UTF-8 never takes fewer bytes than UTF-16 takes units, and takes
      exactly as many only for ASCII text. */
  lemma {:induction false} Utf8AtLeastUtf16(s: string)
    ensures Utf8Length(s) >= |Encode(s)|
    ensures Utf8Length(s) == |Encode(s)| <==> IsAscii(s)
  {
    if |s| > 0 {
      Utf8AtLeastUtf16(s[1..]);
      if IsAscii(s[1..]) && s[0] as int < 0x80 {
        assert IsAscii(s) by {
          forall i | 0 <= i < |s| ensures s[i] as int < 0x80 {
            if i > 0 { assert s[i] == s[1..][i - 1]; }
          }
        }
      }
      if IsAscii(s) {
        assert s[0] as int < 0x80;
        assert IsAscii(s[1..]) by {
          forall i | 0 <= i < |s| - 1 ensures s[1..][i] as int < 0x80 {
            assert s[1..][i] == s[i + 1];
          }
        }
      }
    }
  }

  /** Encoding after decoding gives the units back. */
  lemma {:induction false} EncodeDecode(u: seq<u16>)
    requires Decode(u).Some?
    ensures Encode(Decode(u).value) == u
  {
    if |u| > 0 {
      var s := Decode(u).value;
      if IsHighSurrogate(u[0]) && |u| >= 2 && IsLowSurrogate(u[1]) {
        EncodeDecode(u[2..]);
        var c := PairChar(u[0], u[1]);
        assert s == [c] + Decode(u[2..]).value;
        assert s[1..] == Decode(u[2..]).value;
        PairCharEncodes(u[0], u[1]);
        assert EncodeChar(c) == u[..2];
        assert u == u[..2] + u[2..];
      } else {
        EncodeDecode(u[1..]);
        assert s[1..] == Decode(u[1..]).value;
        assert EncodeChar(s[0]) == [u[0]];
        assert u == [u[0]] + u[1..];
      }
    }
  }

  /** Encoding distributes over concatenation. */
  lemma {:induction false} EncodeAppend(a: string, b: string)
    ensures Encode(a + b) == Encode(a) + Encode(b)
  {
    if |a| == 0 {
      assert a + b == b;
    } else {
      assert (a + b)[0] == a[0];
      assert (a + b)[1..] == a[1..] + b;
      EncodeAppend(a[1..], b);
      AppendAssoc(EncodeChar(a[0]), Encode(a[1..]), Encode(b));
    }
  }

  /** Byte offset `n` falls between two characters of `s` (or at either end). */
  predicate IsCharBoundary(s: string, n: nat)
  {
    exists k :: 0 <= k <= |s| && Utf8Length(s[..k]) == n
  }

  /**
   * `String::truncate(n)`: no change when `n` is at least the byte length,
   * otherwise the longest prefix of `n` bytes, or a panic (`None`) when `n`
   * falls inside a character.
   */
  function TruncateUtf8(s: string, n: nat): (r: Option<string>)
    ensures r.Some? ==> exists k :: 0 <= k <= |s| && r.value == s[..k]
    ensures r.Some? ==> Utf8Length(r.value) == if n < Utf8Length(s) then n else Utf8Length(s)
    ensures r.None? ==> n < Utf8Length(s)
  {
    if |s| == 0 || n == 0 then
      assert s[..0] == [];
      Some([])
    else if n < Utf8Width(s[0]) then None
    else
      match TruncateUtf8(s[1..], n - Utf8Width(s[0]))
      case None => None
      case Some(t) =>
        assert exists k :: 0 <= k <= |s| && [s[0]] + t == s[..k] by {
          var k :| 0 <= k <= |s[1..]| && t == s[1..][..k];
          assert [s[0]] + t == s[..k + 1];
        }
        Some([s[0]] + t)
  }

  /** Truncating right after a prefix gives that prefix back. */
  lemma {:induction false} TruncateAfterPrefix(a: string, b: string)
    ensures TruncateUtf8(a + b, Utf8Length(a)) == Some(a)
  {
    if |a| > 0 {
      assert (a + b)[0] == a[0];
      assert (a + b)[1..] == a[1..] + b;
      TruncateAfterPrefix(a[1..], b);
      assert [a[0]] + a[1..] == a;
    }
  }

  /** Lossy decoding never takes fewer UTF-8 bytes than there were units, and
      exactly as many only when every unit is ASCII. */
  lemma {:induction false} LossyUtf8Length(u: seq<u16>)
    ensures Utf8Length(DecodeLossy(u)) >= |u|
    ensures Utf8Length(DecodeLossy(u)) == |u| <==> IsAsciiUnits(u)
  {
    if |u| > 0 {
      if IsHighSurrogate(u[0]) && |u| >= 2 && IsLowSurrogate(u[1]) {
        LossyUtf8Length(u[2..]);
        assert !IsAsciiUnits(u) by { assert u[0] >= 0x80; }
      } else if IsSurrogate(u[0]) {
        LossyUtf8Length(u[1..]);
        assert !IsAsciiUnits(u) by { assert u[0] >= 0x80; }
      } else {
        LossyUtf8Length(u[1..]);
        if IsAsciiUnits(u[1..]) && u[0] < 0x80 {
          assert IsAsciiUnits(u) by {
            forall i | 0 <= i < |u| ensures u[i] < 0x80 {
              if i > 0 { assert u[i] == u[1..][i - 1]; }
            }
          }
        }
        if IsAsciiUnits(u) {
          assert IsAsciiUnits(u[1..]) by {
            forall i | 0 <= i < |u| - 1 ensures u[1..][i] < 0x80 {
              assert u[1..][i] == u[i + 1];
            }
          }
        }
      }
    }
  }

  /** Position of the first zero unit, if any. */
  function FirstNul(u: seq<u16>): (r: Option<nat>)
    ensures r.Some? ==> r.value < |u| && u[r.value] == 0
    ensures r.Some? ==> forall j :: 0 <= j < r.value ==> u[j] != 0
    ensures r.None? <==> 0 !in u
  {
    if |u| == 0 then None
    else if u[0] == 0 then Some(0)
    else
      match FirstNul(u[1..])
      case None => None
      case Some(k) => Some(k + 1)
  }

  /** The units before the first zero unit, if there is one. */
  function NulPrefix(u: seq<u16>): (r: Option<seq<u16>>)
    ensures r.Some? <==> 0 in u
    ensures r.Some? ==> 0 !in r.value && |r.value| < |u| && u[|r.value|] == 0
    ensures r.Some? ==> r.value == u[..|r.value|]
  {
    match FirstNul(u)
    case None => None
    case Some(k) => Some(u[..k])
  }

  /** Rust's `u8::to_ascii_lowercase`, lifted to characters. */
  function AsciiLower(c: char): char
  {
    if 'A' <= c <= 'Z' then (c as int + 32) as char else c
  }

  /** `str::eq_ignore_ascii_case`. Comparing the UTF-8 bytes after folding
      ASCII letters is the same as comparing characters after folding them,
      since every byte of a multi-byte character is at least 0x80. */
  predicate EqIgnoreAsciiCase(a: string, b: string)
  {
    |a| == |b| && forall i :: 0 <= i < |a| ==> AsciiLower(a[i]) == AsciiLower(b[i])
  }

  /** Decimal digits of `n`, as `{}` formats an integer. */
  function DecimalText(n: nat): (r: string)
    ensures |r| >= 1
    ensures forall i :: 0 <= i < |r| ==> '0' <= r[i] <= '9'
  {
    if n < 10 then [('0' as int + n) as char]
    else DecimalText(n / 10) + [('0' as int + n % 10) as char]
  }
}
