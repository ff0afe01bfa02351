/**
 * Page requests and the decoding of one frame's feedback buffer into the
 * ordered, de-duplicated request set that `IngestFeedback` walks.
 */
module Requests {
  import opened Wrappers
  import opened Bits

  /** `uint32_t`. */
  type U32 = x: int | 0 <= x < 0x1_0000_0000

  /** `PageRequest`: one virtual page at one level of detail. */
  datatype PageRequest = PageRequest(lod: U32, x: int, y: int)

  /** The defaulted `operator<=>`: lexicographic on (lod, x, y). */
  predicate Less(a: PageRequest, b: PageRequest) {
    || a.lod < b.lod
    || (a.lod == b.lod && a.x < b.x)
    || (a.lod == b.lod && a.x == b.x && a.y < b.y)
  }

  /**
   * `Less` is a strict total order: exactly one of `a < b`, `a == b`,
   * `b < a` holds, and it is transitive.
   */
  lemma LessIsStrictTotalOrder(a: PageRequest, b: PageRequest, c: PageRequest)
    ensures a == b || Less(a, b) || Less(b, a)
    ensures !(Less(a, b) && Less(b, a))
    ensures !Less(a, a)
    ensures Less(a, b) && Less(b, c) ==> Less(a, c)
  {
  }

  /** Ascending without repeats: the iteration order of a `std::set`. */
  predicate StrictlySorted(s: seq<PageRequest>) {
    forall i, j | 0 <= i < j < |s| :: Less(s[i], s[j])
  }

  /** Feedback value meaning "no virtual page sampled here". */
  const Sentinel: bv32 := 0xFFFF_FFFF

  /** A request whose fields fit the feedback bitfields (5, 6 and 6 bits). */
  predicate Encodable(r: PageRequest) {
    r.lod < 32 && 0 <= r.x < 64 && 0 <= r.y < 64
  }

  /**
   * One feedback word: the sentinel yields nothing; any other word yields
   * lod = bits 0-4, x = bits 5-10, y = bits 11-16 (higher bits ignored).
   */
  function DecodeWord(w: bv32): (r: Option<PageRequest>)
    ensures r.None? <==> w == Sentinel
    ensures r.Some? ==> Encodable(r.value)
  {
    if w == Sentinel then None
    else
      Some(PageRequest(
        ((w & 0x1F) as bv8) as int,
        (((w >> 5) & 0x3F) as bv8) as int,
        (((w >> 11) & 0x3F) as bv8) as int))
  }

  /** The packing the renderer writes into the feedback buffer for `r`. */
  function EncodeWord(r: PageRequest): bv32
    requires Encodable(r)
  {
    ((r.lod as bv8) as bv32)
      | (((r.x as bv8) as bv32) << 5)
      | (((r.y as bv8) as bv32) << 11)
  }

  lemma ByteFields(l: bv8, x: bv8, y: bv8)
    requires l < 32 && x < 64 && y < 64
    ensures var w := (l as bv32) | ((x as bv32) << 5) | ((y as bv32) << 11);
      && w != Sentinel
      && (w & 0x1F) as bv8 == l
      && ((w >> 5) & 0x3F) as bv8 == x
      && ((w >> 11) & 0x3F) as bv8 == y
  {
  }

  /** Encoding an in-range request and decoding it gives the request back. */
  lemma DecodeEncode(r: PageRequest)
    requires Encodable(r)
    ensures DecodeWord(EncodeWord(r)) == Some(r)
  {
    var l, x, y := r.lod as bv8, r.x as bv8, r.y as bv8;
    SmallByte(r.lod);
    SmallByte(r.x);
    SmallByte(r.y);
    assert l < 32 && x < 64 && y < 64;
    ByteFields(l, x, y);
  }

  lemma ByteRoundTrip(w: bv32)
    ensures var l, x, y := (w & 0x1F) as bv8, ((w >> 5) & 0x3F) as bv8, ((w >> 11) & 0x3F) as bv8;
      (l as bv32) | ((x as bv32) << 5) | ((y as bv32) << 11) == w & 0x1FFFF
  {
  }

  /** Decoding keeps exactly the low 17 bits of a non-sentinel word. */
  lemma EncodeDecode(w: bv32)
    requires w != Sentinel
    ensures EncodeWord(DecodeWord(w).value) == w & 0x1FFFF
  {
    var l, x, y := (w & 0x1F) as bv8, ((w >> 5) & 0x3F) as bv8, ((w >> 11) & 0x3F) as bv8;
    ByteIntByte(l);
    ByteIntByte(x);
    ByteIntByte(y);
    ByteRoundTrip(w);
  }

  /** `w` occurs in the buffer and decodes to `r`. */
  predicate Decoded(buf: seq<bv32>, r: PageRequest) {
    exists i | 0 <= i < |buf| :: DecodeWord(buf[i]) == Some(r)
  }

  /** `std::set::emplace` on a sorted, repeat-free sequence. */
  function Insert(s: seq<PageRequest>, r: PageRequest): (t: seq<PageRequest>)
    requires StrictlySorted(s)
    ensures StrictlySorted(t)
    ensures forall q :: q in t <==> q in s || q == r
    ensures |t| <= |s| + 1
  {
    if s == [] then [r]
    else if r == s[0] then s
    else if Less(r, s[0]) then [r] + s
    else
      var rest := Insert(s[1..], r);
      assert forall q | q in rest :: Less(s[0], q);
      [s[0]] + rest
  }

  /**
   * The first loop of `IngestFeedback`: every non-sentinel word of the
   * buffer is decoded and placed into an ordered set.
   */
  function DecodeFeedback(buf: seq<bv32>): (rs: seq<PageRequest>)
    ensures StrictlySorted(rs)
    ensures forall r :: r in rs <==> Decoded(buf, r)
    decreases |buf|
  {
    if buf == [] then []
    else
      var prefix := buf[..|buf| - 1];
      var rest := DecodeFeedback(prefix);
      var last := buf[|buf| - 1];
      assert forall r :: Decoded(buf, r) <==> Decoded(prefix, r) || DecodeWord(last) == Some(r) by {
        forall r | Decoded(buf, r) && DecodeWord(last) != Some(r)
          ensures Decoded(prefix, r)
        {
          var i :| 0 <= i < |buf| && DecodeWord(buf[i]) == Some(r);
          assert buf[i] == prefix[i];
        }
        forall r | Decoded(prefix, r)
          ensures Decoded(buf, r)
        {
          var i :| 0 <= i < |prefix| && DecodeWord(prefix[i]) == Some(r);
          assert buf[i] == prefix[i];
        }
      }
      match DecodeWord(last)
      case None => rest
      case Some(r) => Insert(rest, r)
  }

  /** Two ascending, repeat-free sequences with the same elements are equal. */
  lemma {:induction false} SortedUnique(s: seq<PageRequest>, t: seq<PageRequest>)
    requires StrictlySorted(s) && StrictlySorted(t)
    requires forall q :: q in s <==> q in t
    ensures s == t
    decreases |s|
  {
    if s != [] {
      assert s[0] in t;
    }
    if t != [] {
      assert t[0] in s;
    }
    if s != [] && t != [] {
      if s[0] != t[0] {
        assert t[0] in s && s[0] in t;
        LessIsStrictTotalOrder(s[0], t[0], t[0]);
      }
      forall q
        ensures q in s[1..] <==> q in t[1..]
      {
        assert s == [s[0]] + s[1..] && t == [t[0]] + t[1..];
        if q in s[1..] {
          LessIsStrictTotalOrder(s[0], q, q);
          assert q in t && q != t[0];
        }
        if q in t[1..] {
          LessIsStrictTotalOrder(t[0], q, q);
          assert q in s && q != s[0];
        }
      }
      SortedUnique(s[1..], t[1..]);
      assert s == [s[0]] + s[1..] && t == [t[0]] + t[1..];
    }
  }

  /**
   * The decoded request list depends only on which words occur in the
   * buffer, not on their order or how often they repeat.
   */
  lemma DecodeFeedbackIgnoresOrder(a: seq<bv32>, b: seq<bv32>)
    requires forall w :: w in a <==> w in b
    ensures DecodeFeedback(a) == DecodeFeedback(b)
  {
    forall r
      ensures r in DecodeFeedback(a) <==> r in DecodeFeedback(b)
    {
      if Decoded(a, r) {
        var i :| 0 <= i < |a| && DecodeWord(a[i]) == Some(r);
        assert a[i] in b;
      }
      if Decoded(b, r) {
        var i :| 0 <= i < |b| && DecodeWord(b[i]) == Some(r);
        assert b[i] in a;
      }
    }
    SortedUnique(DecodeFeedback(a), DecodeFeedback(b));
  }

  /** A sentinel followed by the same word twice yields that word's request once. */
  lemma SentinelAndRepeatYieldOne(w: bv32)
    requires w != Sentinel
    ensures DecodeFeedback([Sentinel, w, w]) == [DecodeWord(w).value]
  {
    var r := DecodeWord(w).value;
    assert [Sentinel][..0] == [];
    assert DecodeFeedback([Sentinel]) == [];
    assert [Sentinel, w][..1] == [Sentinel];
    assert DecodeFeedback([Sentinel, w]) == Insert([], r) == [r];
    assert [Sentinel, w, w][..2] == [Sentinel, w];
    assert DecodeFeedback([Sentinel, w, w]) == Insert([r], r) == [r];
  }

  /** The concrete case (lod 2, x 3, y 5). */
  lemma ExampleFrame()
    ensures DecodeFeedback([Sentinel, 0x2862, 0x2862]) == [PageRequest(2, 3, 5)]
  {
    SentinelAndRepeatYieldOne(0x2862);
    assert EncodeWord(PageRequest(2, 3, 5)) == 0x2862;
    DecodeEncode(PageRequest(2, 3, 5));
  }
}
