/** Byte-sequence primitives with the semantics of the Python built-ins the
    patcher relies on: substring search (`bytes.find` / `bytes.index`),
    slicing with negative and out-of-range bounds, `bytes.ljust`, and
    little-endian unsigned 32-bit fields (`struct` format `'<I'`). */
module Bytes {
  import opened Wrappers
  import opened Errors

  /** One octet, as an integer so that field arithmetic stays linear. */
  newtype Byte = x: int | 0 <= x < 0x100

  /** 2^32: every `'<I'` field holds a value below this. */
  const U32_LIMIT: nat := 0x1_0000_0000

  /** `pat` occurs in `s` starting at index `i`. */
  predicate OccursAt(s: seq<Byte>, pat: seq<Byte>, i: int) {
    0 <= i && i + |pat| <= |s| && s[i..i + |pat|] == pat
  }

  /** Python's `pat in s`. */
  predicate Occurs(s: seq<Byte>, pat: seq<Byte>) {
    exists i :: 0 <= i <= |s| - |pat| && OccursAt(s, pat, i)
  }

  /** `i` is the leftmost occurrence of `pat` in `s`. */
  predicate IsFirstAt(s: seq<Byte>, pat: seq<Byte>, i: int) {
    OccursAt(s, pat, i) && forall j :: 0 <= j < i ==> !OccursAt(s, pat, j)
  }

  /** There is only one leftmost occurrence. */
  lemma FirstAtUnique(s: seq<Byte>, pat: seq<Byte>, i: int)
    requires IsFirstAt(s, pat, i)
    ensures forall j :: IsFirstAt(s, pat, j) ==> j == i
  {
  }

  /** An occurrence of `pat` is also an occurrence of each prefix of `pat`. */
  lemma OccursAtPrefix(s: seq<Byte>, pat: seq<Byte>, i: int, k: nat)
    requires OccursAt(s, pat, i)
    requires k <= |pat|
    ensures OccursAt(s, pat[..k], i)
  {
    assert s[i..i + k] == s[i..i + |pat|][..k];
  }

  /** Occurrences inside a suffix are occurrences in the whole sequence,
      shifted by the suffix's start. */
  lemma OccursInSuffix(s: seq<Byte>, pat: seq<Byte>, k: nat, i: int)
    requires k <= |s|
    ensures OccursAt(s[k..], pat, i) <==> 0 <= i && OccursAt(s, pat, k + i)
  {
    if 0 <= i && i + |pat| <= |s| - k {
      assert s[k..][i..i + |pat|] == s[k + i..k + i + |pat|];
    }
  }

  /** `bytes.find`: the index of the leftmost occurrence of `pat`, or None.
      An empty pattern is found at index 0. */
  function Find(s: seq<Byte>, pat: seq<Byte>): (r: Option<nat>)
    ensures r.Some? ==> IsFirstAt(s, pat, r.value)
    ensures r.None? <==> !Occurs(s, pat)
    ensures r.None? ==> forall j :: !OccursAt(s, pat, j)
    decreases |s|
  {
    if |s| < |pat| then None
    else if s[..|pat|] == pat then Some(0)
    else
      match Find(s[1..], pat)
      case None =>
        forall j ensures !OccursAt(s, pat, j) {
          if j != 0 { OccursInSuffix(s, pat, 1, j - 1); }
        }
        None
      case Some(k) =>
        OccursInSuffix(s, pat, 1, k);
        forall j | 0 <= j < k + 1 ensures !OccursAt(s, pat, j) {
          if j != 0 { OccursInSuffix(s, pat, 1, j - 1); }
        }
        Some(k + 1)
  }

  /** `bytes.index`: like `Find`, but an absent pattern raises ValueError. */
  function Index(s: seq<Byte>, pat: seq<Byte>): (r: Result<nat, PatchError>)
    ensures r.Ok? <==> Occurs(s, pat)
    ensures r.Ok? ==> IsFirstAt(s, pat, r.value)
    ensures r.Err? ==> r.error == SubsectionNotFound
  {
    match Find(s, pat)
    case Some(i) => Ok(i)
    case None => Err(SubsectionNotFound)
  }

  /** A Python slice bound: negative values count from the end, then the
      result is clamped into `[0, n]`. */
  function SliceBound(i: int, n: nat): (r: nat)
    ensures r <= n
    ensures 0 <= i <= n ==> r == i
  {
    var j := if i < 0 then i + n else i;
    if j < 0 then 0 else if j > n then n else j
  }

  /** Python's `s[lo:hi]`, which never fails: bounds are normalised and an
      inverted range gives the empty sequence. */
  function Slice(s: seq<Byte>, lo: int, hi: int): (r: seq<Byte>)
    ensures |r| <= |s|
    ensures 0 <= lo <= hi <= |s| ==> r == s[lo..hi]
    ensures 0 <= hi <= lo ==> r == []
  {
    var a := SliceBound(lo, |s|);
    var b := SliceBound(hi, |s|);
    if a <= b then s[a..b] else []
  }

  /** `s.ljust(width, b'\0')`: pads with zero bytes up to `width`; a longer
      sequence is returned unchanged. */
  function LJust(s: seq<Byte>, width: int): (r: seq<Byte>)
    ensures |r| == if |s| >= width then |s| else width
    ensures r[..|s|] == s
    ensures forall i :: |s| <= i < |r| ==> r[i] == 0
  {
    if |s| >= width then s else s + seq(width - |s|, _ => 0)
  }

  /** The value of four bytes read as a little-endian unsigned integer. */
  function DecodeU32(b: seq<Byte>): (v: nat)
    requires |b| == 4
    ensures v < U32_LIMIT
  {
    b[0] as nat + 0x100 * (b[1] as nat + 0x100 * (b[2] as nat + 0x100 * b[3] as nat))
  }

  /** `struct.pack('<I', v)`: the four little-endian bytes of `v`. */
  function EncodeU32(v: nat): (b: seq<Byte>)
    requires v < U32_LIMIT
    ensures |b| == 4
    ensures DecodeU32(b) == v
  {
    var v1 := v / 0x100;
    var v2 := v1 / 0x100;
    var v3 := v2 / 0x100;
    [(v % 0x100) as Byte, (v1 % 0x100) as Byte, (v2 % 0x100) as Byte, v3 as Byte]
  }

  /** Splitting `lo + 256 * hi` into its low byte and the rest. */
  lemma SplitLowByte(lo: nat, hi: nat)
    requires lo < 0x100
    ensures (lo + 0x100 * hi) % 0x100 == lo
    ensures (lo + 0x100 * hi) / 0x100 == hi
  {
  }

  /** Decoding then re-encoding four bytes gives them back: a `'<I'` field
      is determined by its value. */
  lemma EncodeDecodeU32(b: seq<Byte>)
    requires |b| == 4
    ensures EncodeU32(DecodeU32(b)) == b
  {
    var b0, b1, b2, b3 := b[0] as nat, b[1] as nat, b[2] as nat, b[3] as nat;
    var v2 := b2 + 0x100 * b3;
    var v1 := b1 + 0x100 * v2;
    var v := b0 + 0x100 * v1;
    assert DecodeU32(b) == v;
    SplitLowByte(b0, v1);
    SplitLowByte(b1, v2);
    SplitLowByte(b2, b3);
  }

  /** `struct.unpack_from('<I', data, offset)[0]`. A negative offset counts
      from the end of the buffer; the read raises struct.error unless four
      bytes are available at the normalised offset. */
  function UnpackU32(data: seq<Byte>, offset: int): (r: Result<nat, PatchError>)
    ensures 0 <= offset ==> (r.Ok? <==> offset + 4 <= |data|)
    ensures offset < 0 ==> (r.Ok? <==> 0 <= |data| + offset && offset <= -4)
    ensures r.Ok? ==> r.value < U32_LIMIT
    ensures r.Ok? && 0 <= offset ==> EncodeU32(r.value) == data[offset..offset + 4]
    ensures r.Ok? && offset < 0 ==> EncodeU32(r.value) == data[|data| + offset..|data| + offset + 4]
    ensures r.Err? ==> r.error == StructError
  {
    var o := if offset < 0 then offset + |data| else offset;
    if o < 0 || |data| - o < 4 then Err(StructError)
    else
      EncodeDecodeU32(data[o..o + 4]);
      Ok(DecodeU32(data[o..o + 4]))
  }

  /** `s` with the bytes from `p` on overwritten by `block`. */
  function Splice(s: seq<Byte>, p: nat, block: seq<Byte>): (r: seq<Byte>)
    requires p + |block| <= |s|
    ensures |r| == |s|
    ensures r[p..p + |block|] == block
    ensures forall i :: 0 <= i < |s| && !(p <= i < p + |block|) ==> r[i] == s[i]
  {
    s[..p] + block + s[p + |block|..]
  }

  /** Two sequences that differ at most inside `[p, p + n)` agree on every
      range clear of it. */
  lemma AgreeOutside(a: seq<Byte>, b: seq<Byte>, p: nat, n: nat, lo: nat, hi: nat)
    requires |a| == |b| && lo <= hi <= |a|
    requires hi <= p || p + n <= lo
    requires forall i :: 0 <= i < |a| && !(p <= i < p + n) ==> a[i] == b[i]
    ensures a[lo..hi] == b[lo..hi]
  {
  }

  /** A read at a non-negative offset sees only the four bytes there. */
  lemma UnpackSeesOnlyField(a: seq<Byte>, b: seq<Byte>, offset: nat)
    requires offset + 4 <= |a| && offset + 4 <= |b|
    requires a[offset..offset + 4] == b[offset..offset + 4]
    ensures UnpackU32(a, offset) == UnpackU32(b, offset)
  {
  }

  /** `struct.pack_into('<I', buf, offset, v)` on a copy of `data`: the four
      bytes at `offset` become the encoding of `v`, every other byte stays. */
  function PackU32(data: seq<Byte>, offset: nat, v: nat): (r: seq<Byte>)
    requires offset + 4 <= |data|
    requires v < U32_LIMIT
    ensures |r| == |data|
    ensures r[offset..offset + 4] == EncodeU32(v)
    ensures forall i :: 0 <= i < |data| && !(offset <= i < offset + 4) ==> r[i] == data[i]
    ensures UnpackU32(r, offset) == Ok(v)
  {
    var r := data[..offset] + EncodeU32(v) + data[offset + 4..];
    assert r[offset..offset + 4] == EncodeU32(v);
    EncodeDecodeU32(r[offset..offset + 4]);
    r
  }
}
