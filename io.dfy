/** Argument marshalling of src/io.c: `pack` writes a header
    `[len: int32][size: int32]` followed by one field per format character
    (`i` and `u`: 4 bytes, `p`: 8 bytes) into a byte buffer, little-endian
    as on x86-64; `unpack` reads them back. The variadic arguments are a
    sequence of integers, one per field, and the out-pointers of `unpack`
    are its returned sequence of values. */
module Io {

  newtype byte = x: int | 0 <= x < 256

  /** `2 * sizeof(int)`: the header, and the offset of the first field. */
  const HEADER: nat := 8

  /** The format characters pack and unpack know. */
  predicate IsField(c: char)
  {
    c == 'i' || c == 'u' || c == 'p'
  }

  /** Bytes per field: `sizeof(int32_t)`, `sizeof(uint32_t)`,
      `sizeof(void *)`. */
  function Width(c: char): (w: nat)
    requires IsField(c)
    ensures w == 4 || w == 8
  {
    if c == 'p' then 8 else 4
  }

  /** How many leading characters of `fmt` are known fields: the scan stops
      at the first other character. */
  function ValidPrefix(fmt: string): (n: nat)
    ensures n <= |fmt|
    ensures forall k :: 0 <= k < n ==> IsField(fmt[k])
    ensures n < |fmt| ==> !IsField(fmt[n])
  {
    if fmt == [] || !IsField(fmt[0]) then 0 else 1 + ValidPrefix(fmt[1..])
  }

  predicate AllFields(fmt: string)
  {
    forall k :: 0 <= k < |fmt| ==> IsField(fmt[k])
  }

  /** The bytes the fields of `fmt` take. */
  function Widths(fmt: string): nat
    requires AllFields(fmt)
  {
    if fmt == [] then 0 else Widths(fmt[..|fmt| - 1]) + Width(fmt[|fmt| - 1])
  }

  /** Where field `k` of `fmt` starts (and field `k - 1` ends). */
  function Offset(fmt: string, k: nat): (off: nat)
    requires k <= ValidPrefix(fmt)
    ensures off >= HEADER
  {
    assert AllFields(fmt[..k]);
    HEADER + Widths(fmt[..k])
  }

  /** Each field moves the offset on by its width. */
  lemma OffsetStep(fmt: string, k: nat)
    requires k < ValidPrefix(fmt)
    ensures Offset(fmt, k + 1) == Offset(fmt, k) + Width(fmt[k])
  {
    assert fmt[..k + 1][..k] == fmt[..k];
  }

  /** Offsets grow with the field index. */
  lemma {:induction false} OffsetMonotone(fmt: string, j: nat, k: nat)
    requires j <= k <= ValidPrefix(fmt)
    ensures Offset(fmt, j) + 4 * (k - j) <= Offset(fmt, k)
    decreases k - j
  {
    if j < k {
      OffsetStep(fmt, k - 1);
      OffsetMonotone(fmt, j, k - 1);
    }
  }

  function Pow256(n: nat): (p: nat)
    ensures p >= 1
  {
    if n == 0 then 1 else 256 * Pow256(n - 1)
  }

  /** The `n` low bytes of `v` in two's complement, least significant
      first: what memcpy copies out of an integer on x86-64. */
  function LE(v: int, n: nat): (bs: seq<byte>)
    ensures |bs| == n
    decreases n
  {
    if n == 0 then [] else [(v % 256) as byte] + LE(v / 256, n - 1)
  }

  /** The unsigned value of little-endian bytes. */
  function FromLE(bs: seq<byte>): (v: nat)
    ensures v < Pow256(|bs|)
  {
    if bs == [] then 0 else bs[0] as nat + 256 * FromLE(bs[1..])
  }

  /** The same bytes read as a signed two's complement `int32`. */
  function Signed32(x: nat): int
  {
    if x >= 0x8000_0000 then x - 0x1_0000_0000 else x
  }

  /** Euclidean division is unique: a quotient and remainder in range are
      the ones `/` and `%` give. */
  lemma ModUnique(v: int, d: int, q: int, r: int)
    requires d > 0 && v == d * q + r && 0 <= r < d
    ensures v % d == r && v / d == q
  {
    var q', r' := v / d, v % d;
    assert d * (q - q') == r' - r by {
      assert d * q' + r' == v;
      assert d * (q - q') == d * q - d * q';
    }
    if q - q' >= 1 {
      MulAtLeast(d, q - q');
    } else if q' - q >= 1 {
      MulAtLeast(d, q' - q);
    }
  }

  lemma {:induction false} MulAtLeast(d: int, m: int)
    requires d > 0 && m >= 1
    ensures d * m >= d
    decreases m
  {
    if m > 1 {
      MulAtLeast(d, m - 1);
      assert d * m == d * (m - 1) + d;
    }
  }

  /** Reading back `n` stored bytes gives the value modulo 256^n. */
  lemma {:induction false} FromLEofLE(v: int, n: nat)
    ensures FromLE(LE(v, n)) == v % Pow256(n)
    decreases n
  {
    if n > 0 {
      var q, r, p := v / 256, v % 256, Pow256(n - 1);
      FromLEofLE(q, n - 1);
      assert LE(v, n)[1..] == LE(q, n - 1);
      var t := q % p;
      assert q == p * (q / p) + t;
      assert v == (256 * p) * (q / p) + (256 * t + r) by {
        assert v == 256 * q + r;
        assert 256 * q == 256 * (p * (q / p)) + 256 * t;
        assert 256 * (p * (q / p)) == (256 * p) * (q / p);
      }
      ModUnique(v, 256 * p, q / p, 256 * t + r);
    }
  }

  /** What a value of kind `c` may be: an `int32_t`, a `uint32_t`, or a
      pointer (an unsigned 64-bit address). */
  predicate InRange(c: char, v: int)
    requires IsField(c)
  {
    match c
    case 'i' => -0x8000_0000 <= v < 0x8000_0000
    case 'u' => 0 <= v < 0x1_0000_0000
    case _ => 0 <= v < 0x1_0000_0000_0000_0000
  }

  /** The bytes pack copies for one field. */
  function EncodeField(c: char, v: int): (bs: seq<byte>)
    requires IsField(c)
    ensures |bs| == Width(c)
  {
    LE(v, Width(c))
  }

  /** The value unpack copies out of one field's bytes. */
  function DecodeField(c: char, bs: seq<byte>): int
    requires IsField(c)
  {
    if c == 'i' then Signed32(FromLE(bs)) else FromLE(bs)
  }

  /** A field reads back as the value written, for every value of its kind. */
  lemma DecodeEncode(c: char, v: int)
    requires IsField(c) && InRange(c, v)
    ensures DecodeField(c, EncodeField(c, v)) == v
  {
    FromLEofLE(v, Width(c));
    Pow256Values();
    if c == 'i' && v < 0 {
      ModUnique(v, 0x1_0000_0000, -1, v + 0x1_0000_0000);
    } else {
      ModUnique(v, Pow256(Width(c)), 0, v);
    }
  }

  lemma Pow256Values()
    ensures Pow256(4) == 0x1_0000_0000 && Pow256(8) == 0x1_0000_0000_0000_0000
  {
    assert Pow256(2) == 0x1_0000 by {
      assert Pow256(1) == 256;
    }
    assert Pow256(4) == 0x1_0000 * 0x1_0000 by {
      assert Pow256(3) == 256 * 0x1_0000;
    }
    assert Pow256(8) == 0x1_0000_0000 * 0x1_0000_0000 by {
      assert Pow256(6) == 0x1_0000 * 0x1_0000_0000 by {
        assert Pow256(5) == 256 * 0x1_0000_0000;
      }
      assert Pow256(7) == 256 * Pow256(6);
    }
  }

  /** The field bytes pack writes for `fmt` (all known) from `args`. */
  function Fields(fmt: string, args: seq<int>): (bs: seq<byte>)
    requires AllFields(fmt) && |args| >= |fmt|
    ensures |bs| == Widths(fmt)
  {
    if fmt == [] then [] else Fields(fmt[..|fmt| - 1], args) + EncodeField(fmt[|fmt| - 1], args[|fmt| - 1])
  }

  /** The header: the total length and the buffer size, as C ints. */
  function Header(len: int, size: int): (bs: seq<byte>)
    ensures |bs| == HEADER
  {
    LE(len, 4) + LE(size, 4)
  }

  /** pack's capacity test as written: each field's start offset is at most
      `size` (the source asserts `size >= ptr` before every copy). */
  predicate PackChecksAsWritten(fmt: string, size: int)
  {
    forall k :: 0 <= k < ValidPrefix(fmt) ==> Offset(fmt, k) <= size
  }

  /** The capacity test pack evidently intends: every field it copies ends
      within `size`. */
  predicate PackFits(fmt: string, size: int)
  {
    Offset(fmt, ValidPrefix(fmt)) <= size
  }

  /** The test as written lets the first field of an 8-byte buffer through,
      although that field's bytes 8..11 lie beyond it. */
  lemma PackOverrunAsWritten()
    ensures PackChecksAsWritten("i", 8) && !PackFits("i", 8)
    ensures Offset("i", 1) == 12
  {
    assert ValidPrefix("i") == 1;
    assert "i"[..1] == "i" && "i"[..0] == [];
  }

  /** The intended test implies the written one and keeps every copied field
      within `size`. */
  lemma PackFitsBounds(fmt: string, size: int)
    requires PackFits(fmt, size)
    ensures PackChecksAsWritten(fmt, size)
    ensures forall k :: 0 <= k < ValidPrefix(fmt) ==> Offset(fmt, k) + Width(fmt[k]) <= size
  {
    forall k | 0 <= k < ValidPrefix(fmt)
      ensures Offset(fmt, k) + Width(fmt[k]) <= size
    {
      OffsetStep(fmt, k);
      OffsetMonotone(fmt, k + 1, ValidPrefix(fmt));
    }
  }

  /** pack (src/io.c:128-169) with the intended capacity test: the
      assertion is `size >= 8`, then each field must fit. Every known field
      up to the first unknown character is written at its offset; an unknown
      character makes pack return -1 with the header unwritten. Otherwise the
      header receives the total length, which pack returns. */
  method Pack(buf: array<byte>, size: int, fmt: string, args: seq<int>) returns (r: int)
    requires HEADER <= size <= buf.Length && size < 0x8000_0000
    requires |args| >= ValidPrefix(fmt)
    requires PackFits(fmt, size)
    modifies buf
    ensures AllFields(fmt) ==>
      && r == Offset(fmt, |fmt|)
      && buf[..] == Header(r, size) + Fields(fmt, args) + old(buf[r..])
    ensures !AllFields(fmt) ==>
      && r == -1
      && buf[..] == old(buf[..HEADER]) + Fields(fmt[..ValidPrefix(fmt)], args) + old(buf[Offset(fmt, ValidPrefix(fmt))..])
  {
    var ok, ptr := PackFields(buf, size, fmt, args);
    if ok {
      ghost var written := buf[..];
      AllFieldsPrefix(fmt);
      assert fmt[..|fmt|] == fmt;
      HeaderSplice(old(buf[..]), written, Fields(fmt, args));
      PutHeader(buf, ptr, size);
      r := ptr;
    } else {
      r := -1;
    }
  }

  /** The bytes after the header, once the fields are written. */
  lemma HeaderSplice(orig: seq<byte>, written: seq<byte>, fields: seq<byte>)
    requires HEADER + |fields| <= |orig|
    requires written == orig[..HEADER] + fields + orig[HEADER + |fields|..]
    ensures written[HEADER..] == fields + orig[HEADER + |fields|..]
  {
  }

  /** pack's loop: copies each field's bytes at its offset, stopping at the
      first unknown character. */
  method PackFields(buf: array<byte>, size: int, fmt: string, args: seq<int>) returns (ok: bool, ptr: nat)
    requires HEADER <= size <= buf.Length
    requires |args| >= ValidPrefix(fmt)
    requires PackFits(fmt, size)
    modifies buf
    ensures ok <==> AllFields(fmt)
    ensures ptr == Offset(fmt, ValidPrefix(fmt)) && HEADER <= ptr <= buf.Length
    ensures buf[..] == old(buf[..HEADER]) + Fields(fmt[..ValidPrefix(fmt)], args) + old(buf[ptr..])
  {
    PackFitsBounds(fmt, size);
    ptr := HEADER;
    for k := 0 to |fmt|
      invariant k <= ValidPrefix(fmt) && ptr == Offset(fmt, k)
      invariant buf[..] == old(buf[..HEADER]) + Fields(fmt[..k], args) + old(buf[ptr..])
    {
      var c := fmt[k];
      if !IsField(c) {
        return false, ptr;
      }
      var bs := EncodeField(c, args[k]);
      OffsetStep(fmt, k);
      ghost var before := Fields(fmt[..k], args);
      PutField(buf, ptr, bs);
      Splice(old(buf[..]), before, bs, ptr);
      assert fmt[..k + 1][..k] == fmt[..k];
      ptr := ptr + Width(c);
    }
    ok := true;
  }

  /** Writing `bs` just after the fields written so far extends them. */
  lemma Splice(orig: seq<byte>, before: seq<byte>, bs: seq<byte>, at: nat)
    requires at == HEADER + |before| && at + |bs| <= |orig|
    ensures var s := orig[..HEADER] + before + orig[at..];
      s[..at] + bs + s[at + |bs|..] == orig[..HEADER] + (before + bs) + orig[at + |bs|..]
  {
    var s := orig[..HEADER] + before + orig[at..];
    assert s[..at] == orig[..HEADER] + before;
    assert s[at + |bs|..] == orig[at + |bs|..];
  }

  /** One field's memcpy into the buffer at `at`. */
  method PutField(buf: array<byte>, at: nat, bs: seq<byte>)
    requires at + |bs| <= buf.Length
    modifies buf
    ensures buf[..] == old(buf[..])[..at] + bs + old(buf[..])[at + |bs|..]
  {
    forall i | at <= i < at + |bs| {
      buf[i] := bs[i - at];
    }
    assert buf[..] == old(buf[..])[..at] + bs + old(buf[..])[at + |bs|..];
  }

  /** The two memcpy calls that write the header. */
  method PutHeader(buf: array<byte>, len: int, size: int)
    requires HEADER <= buf.Length
    modifies buf
    ensures buf[..] == Header(len, size) + old(buf[HEADER..])
  {
    var h := Header(len, size);
    forall i | 0 <= i < HEADER {
      buf[i] := h[i];
    }
    assert buf[..] == h + old(buf[HEADER..]);
  }

  /** The header's `len` and `size`, read as C ints. */
  function HeaderLen(bytes: seq<byte>): int
    requires |bytes| >= HEADER
  {
    Signed32(FromLE(bytes[0..4]))
  }

  function HeaderSize(bytes: seq<byte>): int
    requires |bytes| >= HEADER
  {
    Signed32(FromLE(bytes[4..8]))
  }

  /** unpack's assertions: every field it reaches (including an unknown
      character) starts before `len`, and for a fully known format the
      fields end exactly at `len`. The buffer holds every field read. */
  predicate UnpackOk(bytes: seq<byte>, fmt: string)
  {
    var vp := ValidPrefix(fmt);
    && Offset(fmt, vp) <= |bytes|
    && (forall k :: 0 <= k <= vp && k < |fmt| ==> HeaderLen(bytes) > Offset(fmt, k))
    && (vp == |fmt| ==> HeaderLen(bytes) == Offset(fmt, vp))
  }

  /** unpack (src/io.c:171-210): the values of the known fields up to the
      first unknown character, each decoded from its bytes; the result is
      the header's `size`, or -1 when the format holds an unknown
      character. */
  method Unpack(buf: array<byte>, fmt: string) returns (r: int, vals: seq<int>)
    requires HEADER <= buf.Length && UnpackOk(buf[..], fmt)
    ensures vals == Decoded(buf[..], fmt, ValidPrefix(fmt))
    ensures AllFields(fmt) ==> r == HeaderSize(buf[..])
    ensures !AllFields(fmt) ==> r == -1
  {
    var bytes := buf[..];
    var len := Signed32(FromLE(buf[0..4]));
    var size := Signed32(FromLE(buf[4..8]));
    assert len == HeaderLen(bytes) && size == HeaderSize(bytes) by {
      assert bytes[0..4] == buf[0..4] && bytes[4..8] == buf[4..8];
    }
    var ptr := HEADER;
    vals := [];
    for k := 0 to |fmt|
      invariant k <= ValidPrefix(fmt) && ptr == Offset(fmt, k)
      invariant vals == Decoded(bytes, fmt, k)
    {
      var c := fmt[k];
      assert len > ptr;
      if !IsField(c) {
        return -1, vals;
      }
      OffsetStep(fmt, k);
      OffsetMonotone(fmt, k + 1, ValidPrefix(fmt));
      assert bytes[ptr..ptr + Width(c)] == FieldAt(bytes, fmt, k);
      vals := vals + [DecodeField(c, bytes[ptr..ptr + Width(c)])];
      ptr := ptr + Width(c);
    }
    assert ptr == len;
    r := size;
  }

  /** The values of the first `k` fields, each decoded from its bytes. */
  function Decoded(bytes: seq<byte>, fmt: string, k: nat): (vals: seq<int>)
    requires k <= ValidPrefix(fmt) && Offset(fmt, ValidPrefix(fmt)) <= |bytes|
    ensures |vals| == k
    ensures forall j :: 0 <= j < k ==> vals[j] == DecodeField(fmt[j], FieldAt(bytes, fmt, j))
  {
    if k == 0 then [] else Decoded(bytes, fmt, k - 1) + [DecodeField(fmt[k - 1], FieldAt(bytes, fmt, k - 1))]
  }

  /** The bytes of field `k`, at its offset. */
  function FieldAt(bytes: seq<byte>, fmt: string, k: nat): (bs: seq<byte>)
    requires k < ValidPrefix(fmt) && Offset(fmt, ValidPrefix(fmt)) <= |bytes|
    ensures |bs| == Width(fmt[k])
  {
    OffsetStep(fmt, k);
    OffsetMonotone(fmt, k + 1, ValidPrefix(fmt));
    bytes[Offset(fmt, k)..Offset(fmt, k + 1)]
  }

  /** The fields of a prefix of the format are a prefix of the fields. */
  lemma {:induction false} FieldsPrefix(fmt: string, args: seq<int>, j: nat)
    requires AllFields(fmt) && |args| >= |fmt| && j <= |fmt|
    ensures Fields(fmt[..j], args) <= Fields(fmt, args)
    decreases |fmt|
  {
    if j < |fmt| {
      var init := fmt[..|fmt| - 1];
      FieldsPrefix(init, args, j);
      assert init[..j] == fmt[..j];
    } else {
      assert fmt[..j] == fmt;
    }
  }

  /** A fully known format is its own valid prefix. */
  lemma AllFieldsPrefix(fmt: string)
    requires AllFields(fmt)
    ensures ValidPrefix(fmt) == |fmt|
  {
  }

  /** In bytes laid out by pack, field `k` holds the encoding of argument
      `k`. */
  lemma FieldInPacked(bytes: seq<byte>, fmt: string, args: seq<int>, k: nat)
    requires AllFields(fmt) && |args| >= |fmt| && k < |fmt|
    requires ValidPrefix(fmt) == |fmt| && Offset(fmt, |fmt|) <= |bytes|
    requires bytes[HEADER..Offset(fmt, |fmt|)] == Fields(fmt, args)
    ensures FieldAt(bytes, fmt, k) == EncodeField(fmt[k], args[k])
  {
    var all := Fields(fmt, args);
    var before, enc := Fields(fmt[..k], args), EncodeField(fmt[k], args[k]);
    var a, b := |before|, |before| + |enc|;
    assert b <= |all| && all[a..b] == enc by {
      FieldsPrefix(fmt, args, k + 1);
      assert fmt[..k + 1][..k] == fmt[..k];
      var upto := Fields(fmt[..k + 1], args);
      assert upto == before + enc;
      assert all[..b] == upto;
    }
    OffsetStep(fmt, k);
    assert Offset(fmt, k) == HEADER + a && Offset(fmt, k + 1) == HEADER + b;
    SliceOfSlice(bytes, HEADER, Offset(fmt, |fmt|), a, b);
  }

  /** A slice of a slice is a slice. */
  lemma SliceOfSlice(s: seq<byte>, lo: nat, hi: nat, a: nat, b: nat)
    requires lo <= hi <= |s| && a <= b <= hi - lo
    ensures s[lo..hi][a..b] == s[lo + a..lo + b]
  {
    assert forall i :: 0 <= i < b - a ==> s[lo..hi][a..b][i] == s[lo + a + i];
  }

  /** Round trip: bytes laid out by pack pass unpack's assertions, give back
      the size pack was given, and decode to the packed values. */
  lemma UnpackAfterPack(bytes: seq<byte>, fmt: string, args: seq<int>, size: int)
    requires AllFields(fmt) && |args| >= |fmt|
    requires forall k :: 0 <= k < |fmt| ==> InRange(fmt[k], args[k])
    requires PackFits(fmt, size) && size < 0x8000_0000 && Offset(fmt, |fmt|) <= |bytes|
    requires bytes[..Offset(fmt, |fmt|)] == Header(Offset(fmt, |fmt|), size) + Fields(fmt, args)
    ensures UnpackOk(bytes, fmt)
    ensures HeaderSize(bytes) == size
    ensures forall k :: 0 <= k < |fmt| ==> DecodeField(fmt[k], FieldAt(bytes, fmt, k)) == args[k]
  {
    AllFieldsPrefix(fmt);
    var len := Offset(fmt, |fmt|);
    assert bytes[..HEADER] == Header(len, size) && bytes[HEADER..len] == Fields(fmt, args) by {
      assert bytes[..HEADER] == bytes[..len][..HEADER];
      assert bytes[HEADER..len] == bytes[..len][HEADER..];
    }
    HeaderBack(bytes, len, size);
    forall k | 0 <= k < |fmt|
      ensures HeaderLen(bytes) > Offset(fmt, k)
    {
      OffsetStep(fmt, k);
      OffsetMonotone(fmt, k + 1, |fmt|);
    }
    forall k | 0 <= k < |fmt|
      ensures DecodeField(fmt[k], FieldAt(bytes, fmt, k)) == args[k]
    {
      FieldInPacked(bytes, fmt, args, k);
      DecodeEncode(fmt[k], args[k]);
    }
  }

  /** A header written by pack reads back as the length and size. */
  lemma HeaderBack(bytes: seq<byte>, len: int, size: int)
    requires 0 <= len < 0x8000_0000 && 0 <= size < 0x8000_0000
    requires |bytes| >= HEADER && bytes[..HEADER] == Header(len, size)
    ensures HeaderLen(bytes) == len && HeaderSize(bytes) == size
  {
    assert bytes[0..4] == LE(len, 4) && bytes[4..8] == LE(size, 4) by {
      assert bytes[0..4] == bytes[..HEADER][0..4] && bytes[4..8] == bytes[..HEADER][4..8];
    }
    FromLEofLE(len, 4);
    FromLEofLE(size, 4);
    Pow256Values();
  }

  /** pack followed by unpack of the same format on the same buffer: the
      packed values and the size come back, which is what lets a task reuse
      the argument buffer for its result. */
  method PackThenUnpack(buf: array<byte>, size: int, fmt: string, args: seq<int>) returns (r: int, vals: seq<int>)
    requires HEADER <= size <= buf.Length && size < 0x8000_0000
    requires AllFields(fmt) && |args| >= |fmt|
    requires forall k :: 0 <= k < |fmt| ==> InRange(fmt[k], args[k])
    requires PackFits(fmt, size)
    modifies buf
    ensures r == size && vals == args[..|fmt|]
  {
    AllFieldsPrefix(fmt);
    var len := Pack(buf, size, fmt, args);
    assert buf[..len] == Header(len, size) + Fields(fmt, args);
    UnpackAfterPack(buf[..], fmt, args, size);
    r, vals := Unpack(buf, fmt);
  }
}
