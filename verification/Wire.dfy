/** The wire format: responses (build_redis/chapter9/serialization.hpp) and requests
    (build_redis/chapter9/client.cpp send_req, build_redis/chapter9/commands.hpp parse_req). */
module Wire {
  import opened Bytes
  import Frames

  const I32_MOD: nat := 0x8000_0000

  const SER_NIL: byte := 0
  const SER_ERR: byte := 1
  const SER_STR: byte := 2
  const SER_INT: byte := 3
  const SER_ARR: byte := 4

  // ---- Responses ----

  datatype Response =
    | Nil
    | Err(code: int, msg: bytes)
    | Str(val: bytes)
    | Int(i: int)
    | Arr(items: seq<Response>)

  /** The bytes of a two's complement integer of n bytes. */
  function Signed(v: int, n: nat): bytes {
    Le(v % Pow256(n), n)
  }

  /** What the out_* calls append for a response. */
  function Encode(r: Response): (b: bytes)
    ensures |b| >= 1
  {
    match r
    case Nil => [SER_NIL]
    case Err(code, msg) => [SER_ERR] + Signed(code, 4) + Le32(U32(|msg|)) + msg
    case Str(val) => [SER_STR] + Le32(U32(|val|)) + val
    case Int(i) => [SER_INT] + Signed(i, 8)
    case Arr(items) => ArrHeader(|items|) + EncodeAll(items)
  }

  function EncodeAll(rs: seq<Response>): bytes {
    if rs == [] then [] else Encode(rs[0]) + EncodeAll(rs[1..])
  }

  // The out_* calls: `out` is the string passed by reference, before and after the call.

  method OutNil(out: bytes) returns (out': bytes)
    ensures out' == out + Encode(Nil)
  {
    out' := out + [SER_NIL];
  }

  method OutStr(out: bytes, val: bytes) returns (out': bytes)
    ensures out' == out + Encode(Str(val))
  {
    out' := out + [SER_STR];
    var len := U32(|val|);
    out' := out' + Le32(len);
    out' := out' + val;
  }

  method OutInt(out: bytes, val: int) returns (out': bytes)
    ensures out' == out + Encode(Int(val))
  {
    out' := out + [SER_INT];
    out' := out' + Signed(val, 8);
  }

  method OutErr(out: bytes, code: int, msg: bytes) returns (out': bytes)
    ensures out' == out + Encode(Err(code, msg))
  {
    out' := out + [SER_ERR];
    out' := out' + Signed(code, 4);
    var len := U32(|msg|);
    out' := out' + Le32(len);
    out' := out' + msg;
  }

  /** The header of an array; its n items follow. */
  function ArrHeader(n: nat): bytes { [SER_ARR] + Le32(U32(n)) }

  method OutArr(out: bytes, n: nat) returns (out': bytes)
    ensures out' == out + ArrHeader(n)
  {
    out' := out + [SER_ARR];
    out' := out' + Le32(U32(n));
  }

  /** Conversion to int32_t, which keeps the low 32 bits. */
  function I32(x: nat): (r: int)
    ensures r <= x && (x < I32_MOD ==> r == x) && (I32_MOD <= x < U32_MOD ==> r < 0)
  {
    if U32(x) < I32_MOD then U32(x) else U32(x) - U32_MOD
  }

  /** The end of `len` bytes behind `head` others, or -1 when the sum, made in uint32_t, is beyond the data. */
  function EndOf(data: bytes, head: nat, len: nat): (rv: int)
    ensures rv <= |data|
  {
    var end := U32(head + len);
    if |data| < end then -1 else I32(end)
  }

  /** What on_response returns: the number of bytes consumed, or something negative. */
  function Consumed(data: bytes): (rv: int)
    ensures rv <= |data|
    decreases |data|, 1
  {
    if |data| < 1 then -1
    else if data[0] == SER_NIL then 1
    else if data[0] == SER_ERR then
      if |data| < 9 then -1 else EndOf(data, 9, De32(data, 5))
    else if data[0] == SER_STR then
      if |data| < 5 then -1 else EndOf(data, 5, De32(data, 1))
    else if data[0] == SER_INT then
      if |data| < 9 then -1 else 9
    else if data[0] == SER_ARR then
      if |data| < 5 then -1 else ConsumedItems(data, De32(data, 1), 5)
    else -1
  }

  /** The items of an array, `n` of which are left at `pos`. */
  function ConsumedItems(data: bytes, n: nat, pos: nat): (rv: int)
    requires 0 < pos <= |data|
    ensures rv <= |data|
    decreases |data|, 0, n
  {
    if n == 0 then I32(pos)
    else
      var rv := Consumed(data[pos..]);
      if rv < 0 then rv else ConsumedItems(data, n - 1, pos + rv)
  }

  method OnResponse(data: bytes) returns (rv: int)
    ensures rv == Consumed(data)
    decreases |data|
  {
    if |data| < 1 {
      return -1;
    }
    if data[0] == SER_NIL {
      return 1;
    } else if data[0] == SER_ERR {
      if |data| < 1 + 8 {
        return -1;
      }
      var len := De32(data, 1 + 4);
      if |data| < U32(1 + 8 + len) {
        return -1;
      }
      return I32(U32(1 + 8 + len));
    } else if data[0] == SER_STR {
      if |data| < 1 + 4 {
        return -1;
      }
      var len := De32(data, 1);
      if |data| < U32(1 + 4 + len) {
        return -1;
      }
      return I32(U32(1 + 4 + len));
    } else if data[0] == SER_INT {
      if |data| < 1 + 8 {
        return -1;
      }
      return 1 + 8;
    } else if data[0] == SER_ARR {
      if |data| < 1 + 4 {
        return -1;
      }
      var len := De32(data, 1);
      var arrBytes := 1 + 4;
      var i := 0;
      while i < len
        invariant i <= len && 0 < arrBytes <= |data|
        invariant ConsumedItems(data, len - i, arrBytes) == Consumed(data)
      {
        var r := OnResponse(data[arrBytes..]);
        if r < 0 {
          return r;
        }
        arrBytes := arrBytes + r;
        i := i + 1;
      }
      return I32(arrBytes);
    } else {
      return -1;
    }
  }

  lemma {:induction false} ItemsCount(items: seq<Response>)
    ensures |items| <= |EncodeAll(items)|
  {
    if items != [] {
      ItemsCount(items[1..]);
    }
  }

  /** on_response consumes exactly the bytes of a response, whatever follows it, if the response is shorter than 2 GiB:
      its result is an int32_t. */
  lemma {:induction false} ConsumesExactly(r: Response, rest: bytes)
    ensures Consumed(Encode(r) + rest) == |Encode(r)| <==> |Encode(r)| < I32_MOD
    decreases r
  {
    ConsumedIsI32(Encode(r) + rest);
    if |Encode(r)| < I32_MOD {
      ConsumesShort(r, rest);
    }
  }

  lemma {:induction false} ConsumedIsI32(data: bytes)
    ensures Consumed(data) < I32_MOD
    decreases |data|, 1
  {
    if |data| >= 5 && data[0] == SER_ARR {
      ItemsAreI32(data, De32(data, 1), 5);
    }
  }

  lemma {:induction false} ItemsAreI32(data: bytes, n: nat, pos: nat)
    requires 0 < pos <= |data|
    ensures ConsumedItems(data, n, pos) < I32_MOD
    decreases |data|, 0, n
  {
    if n > 0 {
      ConsumedIsI32(data[pos..]);
      if Consumed(data[pos..]) >= 0 {
        ItemsAreI32(data, n - 1, pos + Consumed(data[pos..]));
      }
    }
  }

  lemma {:induction false} ConsumesShort(r: Response, rest: bytes)
    requires |Encode(r)| < I32_MOD
    ensures Consumed(Encode(r) + rest) == |Encode(r)|
    decreases r
  {
    var data := Encode(r) + rest;
    match r
    case Nil =>
    case Err(code, msg) =>
      var a := [SER_ERR] + Signed(code, 4);
      assert data == a + Le32(|msg|) + (msg + rest);
      De32Of(|msg|, a, msg + rest);
    case Str(val) =>
      assert data == [SER_STR] + Le32(|val|) + (val + rest);
      De32Of(|val|, [SER_STR], val + rest);
    case Int(i) =>
    case Arr(items) =>
      ItemsCount(items);
      var h := [SER_ARR] + Le32(|items|);
      assert data == [SER_ARR] + Le32(|items|) + (EncodeAll(items) + rest);
      De32Of(|items|, [SER_ARR], EncodeAll(items) + rest);
      assert data == h + EncodeAll(items) + rest;
      ItemsConsumeExactly(items, h, rest);
  }

  lemma BehindHead(h: bytes, x: bytes, xs: bytes, rest: bytes)
    ensures (h + (x + xs) + rest)[|h|..] == x + (xs + rest)
    ensures h + (x + xs) + rest == (h + x) + xs + rest
  {
  }

  lemma {:induction false} ItemsConsumeExactly(items: seq<Response>, h: bytes, rest: bytes)
    requires |h| > 0 && |h| + |EncodeAll(items)| < I32_MOD
    ensures ConsumedItems(h + EncodeAll(items) + rest, |items|, |h|) == |h| + |EncodeAll(items)|
    decreases items
  {
    if items != [] {
      var data, x, xs := h + EncodeAll(items) + rest, items[0], items[1..];
      assert EncodeAll(items) == Encode(x) + EncodeAll(xs);
      hide Encode, EncodeAll, Consumed;
      BehindHead(h, Encode(x), EncodeAll(xs), rest);
      ConsumesShort(x, EncodeAll(xs) + rest);
      ItemsConsumeExactly(xs, h + Encode(x), rest);
    }
  }

  // ---- Requests ----

  const K_MAX_MSG := Frames.K_MAX_MSG
  const K_MAX_ARGS := 200 * 1000

  function EncodeArgs(cmd: seq<bytes>): bytes {
    if cmd == [] then [] else Le32(U32(|cmd[0]|)) + cmd[0] + EncodeArgs(cmd[1..])
  }

  /** The payload of a request frame. */
  function EncodeReq(cmd: seq<bytes>): bytes {
    Le32(U32(|cmd|)) + EncodeArgs(cmd)
  }

  /** Every length fits the field it is sent in. */
  ghost predicate ArgsFit(cmd: seq<bytes>) {
    |cmd| < U32_MOD && forall i | 0 <= i < |cmd| :: |cmd[i]| < U32_MOD
  }

  lemma {:induction false} EncodeArgsAppend(a: seq<bytes>, x: bytes)
    ensures EncodeArgs(a + [x]) == EncodeArgs(a) + Le32(U32(|x|)) + x
  {
    if a == [] {
      assert EncodeArgs([]) == [];
    } else {
      EncodeArgsAppend(a[1..], x);
      assert (a + [x])[1..] == a[1..] + [x];
      assert (a + [x])[0] == a[0];
    }
  }

  /** parse_req as a function of the rest of the data: the n arguments that fill it exactly, if any. */
  datatype Parsed = Bad | Good(args: seq<bytes>)

  function ParseArgs(data: bytes, n: nat, pos: nat): (p: Parsed)
    requires pos <= |data|
    ensures p.Good? ==> |p.args| == n
    decreases n
  {
    if n == 0 then if pos == |data| then Good([]) else Bad
    else if pos + 4 > |data| then Bad
    else
      var sz := De32(data, pos);
      if pos + 4 + sz > |data| then Bad
      else
        match ParseArgs(data, n - 1, pos + 4 + sz)
        case Bad => Bad
        case Good(args) => Good([data[pos + 4..pos + 4 + sz]] + args)
  }

  function Parse(data: bytes): Parsed {
    if |data| < 4 || De32(data, 0) > K_MAX_ARGS then Bad else ParseArgs(data, De32(data, 0), 4)
  }

  /** parse_req */
  method ParseReq(data: bytes) returns (rv: int, out: seq<bytes>)
    ensures rv == 0 || rv == -1
    ensures rv == 0 <==> Parse(data).Good?
    ensures rv == 0 ==> out == Parse(data).args
  {
    out := [];
    if |data| < 4 {
      return -1, out;
    }
    var n: nat := De32(data, 0);
    if n > K_MAX_ARGS {
      return -1, out;
    }
    var pos := 4;
    while n > 0
      invariant 4 <= pos <= |data|
      invariant Parse(data).Good? <==> ParseArgs(data, n, pos).Good?
      invariant Parse(data).Good? ==> Parse(data).args == out + ParseArgs(data, n, pos).args
    {
      if pos + 4 > |data| {
        return -1, out;
      }
      var sz := De32(data, pos);
      if pos + 4 + sz > |data| {
        return -1, out;
      }
      out := out + [data[pos + 4..pos + 4 + sz]];
      pos := pos + 4 + sz;
      n := n - 1;
    }
    if pos != |data| {
      return -1, out;
    }
    return 0, out;
  }

  /** What is accepted is an encoding of what is returned. */
  lemma {:induction false} ParseArgsSound(data: bytes, n: nat, pos: nat)
    requires pos <= |data| && ParseArgs(data, n, pos).Good?
    ensures var args := ParseArgs(data, n, pos).args;
            EncodeArgs(args) == data[pos..] && forall i | 0 <= i < |args| :: |args[i]| < U32_MOD
    decreases n
  {
    if n > 0 {
      var sz := De32(data, pos);
      ParseArgsSound(data, n - 1, pos + 4 + sz);
      Le32Of(data, pos);
      var args, x := ParseArgs(data, n, pos).args, data[pos + 4..pos + 4 + sz];
      assert args[1..] == ParseArgs(data, n - 1, pos + 4 + sz).args;
      assert data[pos..] == data[pos..pos + 4] + x + data[pos + 4 + sz..];
    }
  }

  lemma {:induction false} ParseArgsComplete(data: bytes, args: seq<bytes>, pos: nat)
    requires pos <= |data| && data[pos..] == EncodeArgs(args)
    requires forall i | 0 <= i < |args| :: |args[i]| < U32_MOD
    ensures ParseArgs(data, |args|, pos) == Good(args)
    decreases |args|
  {
    if args != [] {
      var x, rest := args[0], EncodeArgs(args[1..]);
      assert data == data[..pos] + Le32(|x|) + (x + rest);
      De32Of(|x|, data[..pos], x + rest);
      assert data[pos + 4..pos + 4 + |x|] == x;
      assert data[pos + 4 + |x|..] == rest;
      ParseArgsComplete(data, args[1..], pos + 4 + |x|);
      assert args == [x] + args[1..];
    }
  }

  /** parse_req accepts exactly the encodings of at most K_MAX_ARGS arguments, and returns what was encoded. */
  lemma {:induction false} ParseExact(data: bytes, cmd: seq<bytes>)
    ensures Parse(data) == Good(cmd) <==> ArgsFit(cmd) && |cmd| <= K_MAX_ARGS && data == EncodeReq(cmd)
  {
    if Parse(data) == Good(cmd) {
      ParseArgsSound(data, De32(data, 0), 4);
      Le32Of(data, 0);
      assert data == data[0..4] + data[4..];
    }
    if ArgsFit(cmd) && |cmd| <= K_MAX_ARGS && data == EncodeReq(cmd) {
      assert data == [] + Le32(|cmd|) + EncodeArgs(cmd);
      De32Of(|cmd|, [], EncodeArgs(cmd));
      assert data[4..] == EncodeArgs(cmd);
      ParseArgsComplete(data, cmd, 4);
    }
  }

  ghost function ArgBytes(cmd: seq<bytes>): nat {
    if cmd == [] then 0 else 4 + |cmd[0]| + ArgBytes(cmd[1..])
  }

  lemma {:induction false} ArgBytesCount(cmd: seq<bytes>)
    ensures |EncodeArgs(cmd)| == ArgBytes(cmd) >= 4 * |cmd|
    ensures forall i | 0 <= i < |cmd| :: |cmd[i]| <= ArgBytes(cmd)
  {
    if cmd != [] {
      ArgBytesCount(cmd[1..]);
    }
  }

  lemma {:induction false} ArgBytesAppend(a: seq<bytes>, x: bytes)
    ensures ArgBytes(a + [x]) == ArgBytes(a) + 4 + |x|
  {
    EncodeArgsAppend(a, x);
    ArgBytesCount(a);
    ArgBytesCount(a + [x]);
  }

  lemma {:induction false} ArgBytesPrefix(a: seq<bytes>, i: nat)
    requires i <= |a|
    ensures ArgBytes(a[..i]) <= ArgBytes(a)
    decreases |a| - i
  {
    if i < |a| {
      assert a[..i + 1] == a[..i] + [a[i]];
      ArgBytesAppend(a[..i], a[i]);
      ArgBytesPrefix(a, i + 1);
    } else {
      assert a[..i] == a;
    }
  }

  /** memcpy into the buffer at `at`. */
  method Put(buf: array<byte>, at: nat, src: bytes)
    requires at + |src| <= buf.Length
    modifies buf
    ensures buf[..at + |src|] == old(buf[..at]) + src
    ensures buf[at + |src|..] == old(buf[at + |src|..])
  {
    for i := 0 to |src|
      invariant buf[..at] == old(buf[..at])
      invariant buf[at..at + i] == src[..i]
      invariant buf[at + |src|..] == old(buf[at + |src|..])
    {
      buf[at + i] := src[i];
    }
    assert buf[..at + |src|] == buf[..at] + buf[at..at + |src|];
  }

  /** One argument: its length, then its bytes. */
  method PutArg(buf: array<byte>, at: nat, x: bytes)
    requires at + 4 + |x| <= buf.Length
    modifies buf
    ensures buf[..at + 4 + |x|] == old(buf[..at]) + Le32(U32(|x|)) + x
  {
    Put(buf, at, Le32(U32(|x|)));
    Put(buf, at + 4, x);
  }

  lemma {:induction false} PrefixStep(cmd: seq<bytes>, i: nat)
    requires i < |cmd|
    ensures ArgBytes(cmd[..i + 1]) == ArgBytes(cmd[..i]) + 4 + |cmd[i]| <= ArgBytes(cmd)
    ensures EncodeArgs(cmd[..i + 1]) == EncodeArgs(cmd[..i]) + Le32(U32(|cmd[i]|)) + cmd[i]
  {
    assert cmd[..i + 1] == cmd[..i] + [cmd[i]];
    ArgBytesAppend(cmd[..i], cmd[i]);
    ArgBytesPrefix(cmd, i + 1);
    EncodeArgsAppend(cmd[..i], cmd[i]);
  }

  /** The loop that writes the arguments at a moving `cur`. */
  method PutArgs(buf: array<byte>, start: nat, cmd: seq<bytes>) returns (fits: bool, cur: nat)
    requires start <= buf.Length
    modifies buf
    ensures fits <==> start + ArgBytes(cmd) <= buf.Length
    ensures fits ==> cur == start + ArgBytes(cmd) && buf[..cur] == old(buf[..start]) + EncodeArgs(cmd)
  {
    cur := start;
    ghost var head := buf[..start];
    for i := 0 to |cmd|
      invariant cur == start + ArgBytes(cmd[..i]) <= buf.Length
      invariant buf[..cur] == head + EncodeArgs(cmd[..i])
    {
      PrefixStep(cmd, i);
      hide Le, EncodeArgs, ArgBytes;
      if cur + 4 + |cmd[i]| > buf.Length {
        return false, cur;
      }
      PutArg(buf, cur, cmd[i]);
      cur := cur + 4 + |cmd[i]|;
      assert head + (EncodeArgs(cmd[..i]) + Le32(U32(|cmd[i]|)) + cmd[i]) == head + EncodeArgs(cmd[..i]) + Le32(U32(|cmd[i]|)) + cmd[i];
    }
    assert cmd[..|cmd|] == cmd;
    fits := true;
  }

  lemma U32Sum(a: nat, b: nat)
    ensures U32(U32(a) + b) == U32(a + b)
  {
  }

  /** The length that send_req announces: a uint32_t sum. */
  method FrameLength(cmd: seq<bytes>) returns (len: nat)
    ensures len == U32(4 + ArgBytes(cmd))
  {
    len := 4;
    for i := 0 to |cmd|
      invariant len == U32(4 + ArgBytes(cmd[..i]))
    {
      PrefixStep(cmd, i);
      U32Sum(4 + ArgBytes(cmd[..i]), 4 + |cmd[i]|);
      len := U32(len + 4 + |cmd[i]|);
    }
    assert cmd[..|cmd|] == cmd;
  }

  /** What comes of send_req up to write_all: the frame it writes, -1 for a request that is too long, or a memcpy beyond
      the end of the buffer. */
  datatype Outcome = Sent(frame: bytes) | TooLong | Overrun

  /** The request is too long, but its length in uint32_t is not. */
  ghost predicate Overruns(cmd: seq<bytes>) {
    U32(4 + ArgBytes(cmd)) <= K_MAX_MSG < 4 + ArgBytes(cmd)
  }

  method SendReq(cmd: seq<bytes>) returns (r: Outcome)
    ensures r.Sent? <==> 4 + ArgBytes(cmd) <= K_MAX_MSG
    ensures r.Sent? ==> r.frame == Le32(U32(|EncodeReq(cmd)|)) + EncodeReq(cmd)
    ensures r.Overrun? <==> Overruns(cmd)
  {
    var len := FrameLength(cmd);
    if len > K_MAX_MSG {
      return TooLong;
    }
    ArgBytesCount(cmd);
    var wbuf := new byte[4 + K_MAX_MSG](_ => 0);
    Put(wbuf, 0, Le32(len));
    Put(wbuf, 4, Le32(U32(|cmd|)));
    var fits, cur := PutArgs(wbuf, 8, cmd);
    if !fits {
      return Overrun;
    }
    assert Le32(len) + Le32(U32(|cmd|)) + EncodeArgs(cmd) == Le32(len) + (Le32(U32(|cmd|)) + EncodeArgs(cmd));
    r := Sent(wbuf[..4 + len]);
  }

  /** A request is written beyond the buffer exactly when its size is a multiple of 4 GiB, not zero, or up to 4096 bytes
      more; below 4 GiB it never is. */
  lemma OverrunSizes(cmd: seq<bytes>)
    ensures Overruns(cmd) <==> exists k: nat :: k >= 1 && k * U32_MOD <= 4 + ArgBytes(cmd) <= k * U32_MOD + K_MAX_MSG
    ensures 4 + ArgBytes(cmd) < U32_MOD ==> !Overruns(cmd)
  {
    var n := 4 + ArgBytes(cmd);
    if Overruns(cmd) {
      var k := n / U32_MOD;
      assert n == k * U32_MOD + U32(n);
    }
    if k: nat :| k >= 1 && k * U32_MOD <= n <= k * U32_MOD + K_MAX_MSG {
      assert n / U32_MOD == k;
    }
  }

  /** The shortest such request of one argument. */
  lemma {:induction false} OverrunRequest(x: bytes)
    requires |x| == U32_MOD - 8
    ensures Overruns([x])
  {
    assert ArgBytes([x]) == 4 + |x| + ArgBytes([]);
  }

  /** A request that is sent is received as it was sent: parse_req on the payload of the frame. */
  lemma {:induction false} RequestRoundTrip(cmd: seq<bytes>)
    requires 4 + ArgBytes(cmd) <= K_MAX_MSG
    ensures var payload := EncodeReq(cmd);
            && Parse(payload) == Good(cmd)
            && var frame := Le32(U32(|payload|)) + payload; De32(frame, 0) == |payload| <= K_MAX_MSG && frame[4..] == payload
  {
    ArgBytesCount(cmd);
    var payload := EncodeReq(cmd);
    ParseExact(payload, cmd);
    De32Of(|payload|, [], payload);
    assert [] + Le32(|payload|) + payload == Le32(|payload|) + payload;
  }
}
