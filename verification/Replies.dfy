/** Which replies on_response accepts (build_redis/chapter9/serialization.hpp), against a decoder of the format
    that counts without bounds. */
module Replies {
  import Bits
  import opened Bytes
  import opened Wire

  /** The reply at the front of some data and its size, if it is all there. */
  datatype Decoded = Partial | Whole(reply: Response, size: nat)

  function FromSigned(b: bytes): int {
    if 2 * De(b) < Pow256(|b|) then De(b) else De(b) - Pow256(|b|)
  }

  function Decode(data: bytes): (d: Decoded)
    ensures d.Whole? ==> 1 <= d.size <= |data|
    decreases |data|, 1
  {
    if |data| < 1 then Partial
    else if data[0] == SER_NIL then Whole(Nil, 1)
    else if data[0] == SER_ERR then
      if |data| < 9 || |data| < 9 + De32(data, 5) then Partial
      else
        var end := 9 + De32(data, 5);
        Whole(Err(FromSigned(data[1..5]), data[9..end]), end)
    else if data[0] == SER_STR then
      if |data| < 5 || |data| < 5 + De32(data, 1) then Partial
      else
        var end := 5 + De32(data, 1);
        Whole(Str(data[5..end]), end)
    else if data[0] == SER_INT then
      if |data| < 9 then Partial else Whole(Int(FromSigned(data[1..9])), 9)
    else if data[0] == SER_ARR then
      if |data| < 5 then Partial else DecodeItems(data, De32(data, 1), 5)
    else Partial
  }

  /** The `n` items at `pos`, as an array. */
  function DecodeItems(data: bytes, n: nat, pos: nat): (d: Decoded)
    requires 0 < pos <= |data|
    ensures d.Whole? ==> d.reply.Arr? && |d.reply.items| == n && pos <= d.size <= |data|
    decreases |data|, 0, n
  {
    if n == 0 then Whole(Arr([]), pos)
    else
      match Decode(data[pos..])
      case Partial => Partial
      case Whole(x, size) =>
        match DecodeItems(data, n - 1, pos + size)
        case Partial => Partial
        case Whole(xs, end) => Whole(Arr([x] + xs.items), end)
  }

  // ---- The byte order ----

  /** Byte `k` of an integer has the weight 256^k. */
  lemma {:induction false} LeDigit(v: nat, n: nat, k: nat)
    requires k < n
    ensures Le(v, n)[k] == v / Pow256(k) % 256
  {
    if k > 0 {
      LeDigit(v / 256, n - 1, k - 1);
      DivTwice(v, Pow256(k - 1));
    }
  }

  lemma {:induction false} DivTwice(v: nat, b: nat)
    requires b > 0
    ensures v / 256 / b == v / (256 * b)
  {
    var w := v / 256;
    var q, r := w / b, w % b;
    var x := b * q;
    assert w == x + r && (256 * b) * q == 256 * x;
    Bits.DivUnique(v, 256 * b, q, 256 * r + v % 256);
  }

  // ---- The decoder inverts the out_* calls ----

  /** What the out_* calls take: 32-bit codes, 64-bit integers, lengths and counts below 2^32. */
  ghost predicate Sized(r: Response) {
    match r
    case Nil => true
    case Err(code, msg) => -0x8000_0000 <= code < 0x8000_0000 && |msg| < U32_MOD
    case Str(val) => |val| < U32_MOD
    case Int(i) => -0x8000_0000_0000_0000 <= i < 0x8000_0000_0000_0000
    case Arr(items) => |items| < U32_MOD && forall x | x in items :: Sized(x)
  }

  lemma ModBack(v: int, p: nat)
    requires 0 <= v + p && v < p
    ensures v % p == if v < 0 then v + p else v
  {
  }

  lemma {:induction false} SignedBack(i: int, n: nat)
    requires 0 <= 2 * i + Pow256(n) && 2 * i < Pow256(n)
    ensures |Signed(i, n)| == n && FromSigned(Signed(i, n)) == i
  {
    hide Pow256, De, Le;
    ModBack(i, Pow256(n));
    DeLe(i % Pow256(n), n);
  }

  lemma {:induction false} SignedOf(b: bytes)
    ensures Signed(FromSigned(b), |b|) == b
    ensures 0 <= 2 * FromSigned(b) + Pow256(|b|) && 2 * FromSigned(b) < Pow256(|b|)
  {
    hide Pow256, De, Le;
    LeDe(b);
    ModBack(FromSigned(b), Pow256(|b|));
  }

  lemma {:induction false} DecodeErr(code: int, msg: bytes, rest: bytes)
    requires Sized(Err(code, msg))
    ensures var e := Encode(Err(code, msg)); Decode(e + rest) == Whole(Err(code, msg), |e|)
  {
    hide Le, FromSigned;
    Pow256Values();
    SignedBack(code, 4);
    var a := [SER_ERR] + Signed(code, 4);
    var data := Encode(Err(code, msg)) + rest;
    assert data == a + Le32(|msg|) + (msg + rest);
    De32Of(|msg|, a, msg + rest);
    assert data[1..5] == Signed(code, 4) && data[9..9 + |msg|] == msg;
  }

  lemma {:induction false} DecodeEncoded(r: Response, rest: bytes)
    requires Sized(r)
    ensures Decode(Encode(r) + rest) == Whole(r, |Encode(r)|)
    decreases r
  {
    var data := Encode(r) + rest;
    Pow256Values();
    match r
    case Nil =>
    case Err(code, msg) =>
      DecodeErr(code, msg, rest);
    case Str(val) =>
      assert data == [SER_STR] + Le32(|val|) + (val + rest);
      De32Of(|val|, [SER_STR], val + rest);
      assert data[5..5 + |val|] == val;
    case Int(i) =>
      SignedBack(i, 8);
      assert data[1..9] == Signed(i, 8);
    case Arr(items) =>
      var h := [SER_ARR] + Le32(|items|);
      assert data == [SER_ARR] + Le32(|items|) + (EncodeAll(items) + rest);
      De32Of(|items|, [SER_ARR], EncodeAll(items) + rest);
      assert data == h + EncodeAll(items) + rest;
      DecodeEncodedItems(items, h, rest);
  }

  lemma NextItem(data: bytes, n: nat, pos: nat, x: Response, size: nat, xs: seq<Response>, end: nat)
    requires n > 0 && 0 < pos && pos + size <= |data| && Decode(data[pos..]) == Whole(x, size)
    requires DecodeItems(data, n - 1, pos + size) == Whole(Arr(xs), end)
    ensures DecodeItems(data, n, pos) == Whole(Arr([x] + xs), end)
  {
  }

  lemma {:induction false} DecodeEncodedItems(items: seq<Response>, h: bytes, rest: bytes)
    requires |h| > 0 && forall x | x in items :: Sized(x)
    ensures DecodeItems(h + EncodeAll(items) + rest, |items|, |h|) == Whole(Arr(items), |h| + |EncodeAll(items)|)
    decreases items
  {
    if items != [] {
      var data, x, xs := h + EncodeAll(items) + rest, items[0], items[1..];
      assert EncodeAll(items) == Encode(x) + EncodeAll(xs);
      hide Encode, EncodeAll, Decode, DecodeItems, Sized;
      BehindHead(h, Encode(x), EncodeAll(xs), rest);
      DecodeEncoded(x, EncodeAll(xs) + rest);
      DecodeEncodedItems(xs, h + Encode(x), rest);
      NextItem(data, |items|, |h|, x, |Encode(x)|, xs, |h| + |EncodeAll(items)|);
      assert [x] + xs == items;
    }
  }

  lemma {:induction false} DecodedIsEncoding(data: bytes)
    requires Decode(data).Whole?
    ensures var d := Decode(data); Sized(d.reply) && Encode(d.reply) == data[..d.size]
    decreases |data|, 1
  {
    Pow256Values();
    if data[0] == SER_ERR {
      Le32Of(data, 5);
      SignedOf(data[1..5]);
      var end := 9 + De32(data, 5);
      assert data[..end] == [SER_ERR] + data[1..5] + data[5..9] + data[9..end];
    } else if data[0] == SER_STR {
      Le32Of(data, 1);
      var end := 5 + De32(data, 1);
      assert data[..end] == [SER_STR] + data[1..5] + data[5..end];
    } else if data[0] == SER_INT {
      SignedOf(data[1..9]);
      assert data[..9] == [SER_INT] + data[1..9];
    } else if data[0] == SER_ARR {
      Le32Of(data, 1);
      DecodedItemsEncoding(data, De32(data, 1), 5);
      var end := Decode(data).size;
      assert data[..end] == [SER_ARR] + data[1..5] + data[5..end];
    }
  }

  lemma {:induction false} DecodedItemsEncoding(data: bytes, n: nat, pos: nat)
    requires 0 < pos <= |data| && DecodeItems(data, n, pos).Whole?
    ensures var d := DecodeItems(data, n, pos);
      (forall x | x in d.reply.items :: Sized(x)) && EncodeAll(d.reply.items) == data[pos..d.size]
    decreases |data|, 0, n
  {
    if n > 0 {
      var d := Decode(data[pos..]);
      var e := DecodeItems(data, n - 1, pos + d.size);
      DecodedIsEncoding(data[pos..]);
      DecodedItemsEncoding(data, n - 1, pos + d.size);
      assert data[pos..][..d.size] == data[pos..pos + d.size];
      assert data[pos..e.size] == data[pos..pos + d.size] + data[pos + d.size..e.size];
      var all := DecodeItems(data, n, pos).reply.items;
      assert all[0] == d.reply && all[1..] == e.reply.items;
    }
  }

  // ---- Acceptance ----

  ghost predicate Begins(data: bytes, r: Response) {
    Sized(r) && Encode(r) <= data
  }

  /** The format leaves no choice: what begins some data is what is decoded from it. */
  lemma {:induction false} BeginsIffDecoded(data: bytes, r: Response)
    ensures Begins(data, r) <==> Decode(data) == Whole(r, |Encode(r)|)
  {
    if Begins(data, r) {
      assert data == Encode(r) + data[|Encode(r)|..];
      DecodeEncoded(r, data[|Encode(r)|..]);
    }
    if Decode(data) == Whole(r, |Encode(r)|) {
      DecodedIsEncoding(data);
    }
  }

  /** A reply that ends at `end` can be answered for: the sum does not wrap, and if the bytes are there it fits the result. */
  predicate EndFits(data: bytes, end: nat) {
    end < I32_MOD || |data| < end < U32_MOD
  }

  /** Every length field that is met in the data can be answered for. */
  predicate LengthsFit(data: bytes)
    decreases |data|, 1
  {
    if |data| >= 9 && data[0] == SER_ERR then EndFits(data, 9 + De32(data, 5))
    else if |data| >= 5 && data[0] == SER_STR then EndFits(data, 5 + De32(data, 1))
    else if |data| >= 5 && data[0] == SER_ARR then ItemsFit(data, De32(data, 1), 5)
    else true
  }

  predicate ItemsFit(data: bytes, n: nat, pos: nat)
    requires 0 < pos <= |data|
    decreases |data|, 0, n
  {
    if n == 0 then pos < I32_MOD
    else
      && LengthsFit(data[pos..])
      && match Decode(data[pos..]) {
           case Partial => true
           case Whole(_, size) => ItemsFit(data, n - 1, pos + size)
         }
  }

  /** on_response answers rightly: the size of the reply that the data begins with, and something negative if there is none. */
  ghost predicate AnswersRightly(data: bytes) {
    match Decode(data)
    case Partial => Consumed(data) < 0
    case Whole(_, size) => Consumed(data) == size
  }

  /** For a single string or error message, that is exactly so when its length can be answered for. */
  lemma MessageAcceptance(data: bytes)
    requires (|data| >= 5 && data[0] == SER_STR) || (|data| >= 9 && data[0] == SER_ERR)
    ensures AnswersRightly(data) <==> LengthsFit(data)
  {
  }

  lemma {:induction false} FitAnswered(data: bytes)
    requires LengthsFit(data)
    ensures AnswersRightly(data)
    decreases |data|, 1
  {
    if |data| >= 5 && data[0] == SER_ARR {
      FitItemsAnswered(data, De32(data, 1), 5);
    }
  }

  lemma {:induction false} FitItemsAnswered(data: bytes, n: nat, pos: nat)
    requires 0 < pos <= |data| && ItemsFit(data, n, pos)
    ensures match DecodeItems(data, n, pos) {
              case Partial => ConsumedItems(data, n, pos) < 0
              case Whole(_, end) => ConsumedItems(data, n, pos) == end
            }
    decreases |data|, 0, n
  {
    if n > 0 {
      FitAnswered(data[pos..]);
      if Decode(data[pos..]).Whole? {
        FitItemsAnswered(data, n - 1, pos + Decode(data[pos..]).size);
      }
    }
  }

  /** Below 2 GiB of data, a length that cannot be answered for belongs to a reply that is not all there. */
  lemma {:induction false} UnfitIsPartial(data: bytes)
    requires |data| < I32_MOD && !LengthsFit(data)
    ensures Decode(data) == Partial
    decreases |data|, 1
  {
    if |data| >= 5 && data[0] == SER_ARR {
      UnfitItemsPartial(data, De32(data, 1), 5);
    }
  }

  lemma {:induction false} UnfitItemsPartial(data: bytes, n: nat, pos: nat)
    requires |data| < I32_MOD && 0 < pos <= |data| && !ItemsFit(data, n, pos)
    ensures DecodeItems(data, n, pos) == Partial
    decreases |data|, 0, n
  {
    if !LengthsFit(data[pos..]) {
      UnfitIsPartial(data[pos..]);
    } else {
      UnfitItemsPartial(data, n - 1, pos + Decode(data[pos..]).size);
    }
  }

  /** Nested replies: where every length met can be answered for, on_response accepts exactly the data that begins with an
      encoding, and consumes exactly that. */
  lemma {:induction false} Acceptance(data: bytes)
    requires LengthsFit(data)
    ensures Consumed(data) >= 0 <==> exists r :: Begins(data, r)
    ensures forall r | Begins(data, r) :: Consumed(data) == |Encode(r)|
  {
    FitAnswered(data);
    if Decode(data).Whole? {
      DecodedIsEncoding(data);
      assert Begins(data, Decode(data).reply);
    }
    forall r | Begins(data, r)
      ensures Consumed(data) == |Encode(r)|
    {
      BeginsIffDecoded(data, r);
    }
  }

  /** Below 2 GiB of data, the one way to go wrong is to accept in spite of a length whose sum wraps. */
  lemma {:induction false} WrongAnswer(data: bytes)
    requires |data| < I32_MOD
    ensures !AnswersRightly(data) <==> !LengthsFit(data) && Consumed(data) >= 0
    ensures !AnswersRightly(data) ==> forall r :: !Begins(data, r)
  {
    if LengthsFit(data) {
      FitAnswered(data);
    } else {
      UnfitIsPartial(data);
      forall r
        ensures !Begins(data, r)
      {
        BeginsIffDecoded(data, r);
      }
    }
  }

  /** The smallest such replies: five and nine bytes, of which none is consumed. */
  lemma {:induction false} WrappedReply(code: int)
    ensures Consumed([SER_STR] + Le32(U32_MOD - 5)) == 0
    ensures Consumed([SER_ERR] + Signed(code, 4) + Le32(U32_MOD - 9)) == 0
  {
    De32Of(U32_MOD - 5, [SER_STR], []);
    assert [SER_STR] + Le32(U32_MOD - 5) + [] == [SER_STR] + Le32(U32_MOD - 5);
    var a := [SER_ERR] + Signed(code, 4);
    De32Of(U32_MOD - 9, a, []);
    assert a + Le32(U32_MOD - 9) + [] == a + Le32(U32_MOD - 9);
  }
}
