/**
 * Byte strings as the key-value store compares them, and the big-endian
 * encoding of 64-bit ids that every key is built from (`u64::to_be_bytes`).
 */
module Bytes {
  type byte = b: int | 0 <= b < 256

  type bytes = seq<byte>

  const TWO_64: int := 0x1_0000_0000_0000_0000

  type u64 = n: int | 0 <= n < TWO_64

  // ---- big-endian numbers ----

  function Pow256(width: nat): (p: nat)
    ensures p >= 1
  {
    if width == 0 then 1 else 256 * Pow256(width - 1)
  }

  function BigEndian(n: nat, width: nat): (s: bytes)
    ensures |s| == width
  {
    if width == 0 then [] else BigEndian(n / 256, width - 1) + [n % 256]
  }

  function FromBigEndian(s: bytes): (n: nat)
    ensures n < Pow256(|s|)
  {
    if |s| == 0 then 0 else 256 * FromBigEndian(s[..|s| - 1]) + s[|s| - 1]
  }

  lemma {:induction false} NumberRoundTrip(n: nat, width: nat)
    requires n < Pow256(width)
    ensures FromBigEndian(BigEndian(n, width)) == n
  {
    if width > 0 {
      NumberRoundTrip(n / 256, width - 1);
      assert BigEndian(n, width)[..width - 1] == BigEndian(n / 256, width - 1);
    }
  }

  lemma {:induction false} DigitsRoundTrip(s: bytes)
    ensures BigEndian(FromBigEndian(s), |s|) == s
  {
    if |s| > 0 {
      DigitsRoundTrip(s[..|s| - 1]);
      assert s == s[..|s| - 1] + [s[|s| - 1]];
    }
  }

  lemma Pow256Of8()
    ensures Pow256(8) == TWO_64
  {
    assert Pow256(2) == 0x1_0000;
    assert Pow256(4) == 0x1_0000_0000;
    assert Pow256(6) == 0x1_0000_0000_0000;
  }

  /** `to_be_bytes` of an id. */
  function Id(n: u64): (s: bytes)
    ensures |s| == 8
    ensures ReadId(s) == n
  {
    Pow256Of8();
    NumberRoundTrip(n, 8);
    BigEndian(n, 8)
  }

  /** `deser_id`; the source panics when the slice is not eight bytes long. */
  function ReadId(s: bytes): (n: u64)
    requires |s| == 8
  {
    Pow256Of8();
    FromBigEndian(s)
  }

  lemma ReadIdInverse(s: bytes)
    requires |s| == 8
    ensures Id(ReadId(s)) == s
  {
    DigitsRoundTrip(s);
  }

  // ---- lexicographic order ----

  /** The order of `[u8]` and of SQLite's BLOB comparison. */
  predicate Less(a: bytes, b: bytes) {
    && |b| > 0
    && (|a| == 0 || a[0] < b[0] || (a[0] == b[0] && Less(a[1..], b[1..])))
  }

  predicate AtMost(a: bytes, b: bytes) {
    a == b || Less(a, b)
  }

  lemma {:induction false} LessIrreflexive(a: bytes)
    ensures !Less(a, a)
  {
    if |a| > 0 {
      LessIrreflexive(a[1..]);
    }
  }

  lemma {:induction false} LessTransitive(a: bytes, b: bytes, c: bytes)
    requires Less(a, b) && Less(b, c)
    ensures Less(a, c)
  {
    if |a| > 0 && a[0] == b[0] == c[0] {
      LessTransitive(a[1..], b[1..], c[1..]);
    }
  }

  lemma {:induction false} LessTotal(a: bytes, b: bytes)
    ensures Less(a, b) || a == b || Less(b, a)
  {
    if |a| > 0 && |b| > 0 && a[0] == b[0] {
      LessTotal(a[1..], b[1..]);
      assert a == [a[0]] + a[1..] && b == [b[0]] + b[1..];
    }
  }

  lemma LessAsymmetric(a: bytes, b: bytes)
    requires Less(a, b)
    ensures !Less(b, a) && a != b
  {
    LessIrreflexive(a);
    if Less(b, a) {
      LessTransitive(a, b, a);
    }
  }

  lemma AtMostTransitive(a: bytes, b: bytes, c: bytes)
    requires AtMost(a, b) && AtMost(b, c)
    ensures AtMost(a, c)
  {
    if a != b && b != c {
      LessTransitive(a, b, c);
    }
  }

  /** A prefix sorts at or before everything that extends it. */
  lemma {:induction false} PrefixAtMost(p: bytes, k: bytes)
    requires p <= k
    ensures AtMost(p, k)
  {
    if |p| > 0 {
      PrefixAtMost(p[1..], k[1..]);
      assert p == [p[0]] + p[1..] && k == [k[0]] + k[1..];
    }
  }

  /**
   * Keys sharing a prefix are an interval of the order: anything between
   * the prefix and an extension of it extends it too.
   */
  lemma {:induction false} PrefixConvex(p: bytes, a: bytes, b: bytes)
    requires AtMost(p, a) && AtMost(a, b) && p <= b
    ensures p <= a
  {
    if |p| > 0 && a != b {
      if p == a {
      } else {
        assert a[0] == p[0];
        if p[1..] != a[1..] {
          assert AtMost(p[1..], a[1..]);
        }
        PrefixConvex(p[1..], a[1..], b[1..]);
        assert p == [p[0]] + p[1..] && a == [a[0]] + a[1..];
      }
    }
  }

  /** A common prefix does not affect the order. */
  lemma {:induction false} LessUnderPrefix(p: bytes, a: bytes, b: bytes)
    ensures Less(p + a, p + b) <==> Less(a, b)
  {
    if |p| == 0 {
      assert p + a == a && p + b == b;
    } else {
      assert (p + a)[1..] == p[1..] + a && (p + b)[1..] == p[1..] + b;
      LessUnderPrefix(p[1..], a, b);
    }
  }

  /** Equal-length heads decide the order unless they are equal. */
  lemma {:induction false} LessByHead(a: bytes, b: bytes, x: bytes, y: bytes)
    requires |a| == |b|
    ensures Less(a + x, b + y) <==> Less(a, b) || (a == b && Less(x, y))
  {
    if |a| == 0 {
      assert a + x == x && b + y == y;
    } else {
      assert (a + x)[1..] == a[1..] + x && (b + y)[1..] == b[1..] + y;
      LessByHead(a[1..], b[1..], x, y);
      assert a == [a[0]] + a[1..] && b == [b[0]] + b[1..];
    }
  }

  /** Big-endian digits compare as the numbers they stand for. */
  lemma {:induction false} BigEndianMonotone(m: nat, n: nat, width: nat)
    requires m < Pow256(width) && n < Pow256(width)
    ensures Less(BigEndian(m, width), BigEndian(n, width)) <==> m < n
  {
    if width > 0 {
      var a, b := BigEndian(m / 256, width - 1), BigEndian(n / 256, width - 1);
      BigEndianMonotone(m / 256, n / 256, width - 1);
      assert a == b <==> m / 256 == n / 256 by {
        NumberRoundTrip(m / 256, width - 1);
        NumberRoundTrip(n / 256, width - 1);
      }
      LessByHead(a, b, [m % 256], [n % 256]);
      assert Less([m % 256], [n % 256]) <==> m % 256 < n % 256;
    }
  }

  /** Ids compare in the store exactly as numbers. */
  lemma IdMonotone(m: u64, n: u64)
    ensures Less(Id(m), Id(n)) <==> m < n
  {
    Pow256Of8();
    BigEndianMonotone(m, n, 8);
  }

  // ---- lists of ids ----

  /** `serialize_list_u64_logic`. */
  function EncodeIds(ids: seq<u64>): (s: bytes)
    ensures |s| == 8 * |ids|
  {
    if |ids| == 0 then [] else Id(ids[0]) + EncodeIds(ids[1..])
  }

  /** `make_u64_iter_logic`: whole eight-byte chunks, a shorter tail is dropped. */
  function DecodeIds(s: bytes): (ids: seq<u64>)
    ensures |ids| == |s| / 8
  {
    if |s| < 8 then [] else [ReadId(s[..8])] + DecodeIds(s[8..])
  }

  lemma {:induction false} IdsRoundTrip(ids: seq<u64>)
    ensures DecodeIds(EncodeIds(ids)) == ids
  {
    if |ids| > 0 {
      IdsRoundTrip(ids[1..]);
      var s := EncodeIds(ids);
      assert s[..8] == Id(ids[0]) && s[8..] == EncodeIds(ids[1..]);
    }
  }

  /** Only whole chunks survive: re-encoding drops exactly the ragged tail. */
  lemma {:induction false} IdsReencode(s: bytes)
    ensures EncodeIds(DecodeIds(s)) == s[..|s| - |s| % 8]
  {
    if |s| >= 8 {
      IdsReencode(s[8..]);
      ReadIdInverse(s[..8]);
      assert DecodeIds(s)[1..] == DecodeIds(s[8..]);
      assert s[..|s| - |s| % 8] == s[..8] + s[8..][..|s[8..]| - |s[8..]| % 8];
    }
  }
}
