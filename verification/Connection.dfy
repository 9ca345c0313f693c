/** The non-blocking connection of build_redis/chapter6/server.cpp. */
module Connection {
  import opened Bytes
  import opened Frames

  datatype State = REQ | RES | END

  /** What read() finds: data (none of it at the end of the stream), or an error. */
  datatype ReadEvent = Chunk(data: bytes) | ReadIntr | ReadAgain | ReadFail

  datatype WriteEvent = Wrote(n: nat) | WriteIntr | WriteAgain | WriteFail

  datatype Rv = Count(n: nat) | Intr | Again | Fail

  /** A socket: any sequence of events; when none is left, every call would block. */
  class Socket {
    var arrivals: seq<ReadEvent>
    var accepts: seq<WriteEvent>
    var received: bytes
    var sent: bytes

    constructor (arrivals: seq<ReadEvent>, accepts: seq<WriteEvent>)
      ensures this.arrivals == arrivals && this.accepts == accepts && received == [] && sent == []
    {
      this.arrivals, this.accepts, received, sent := arrivals, accepts, [], [];
    }

    /** read(): at most `cap` bytes; what is left of a longer chunk stays. */
    method Read(buf: array<byte>, at: nat, cap: nat) returns (rv: Rv)
      requires at + cap <= buf.Length && cap > 0
      modifies `arrivals, `received, buf
      ensures buf[..at] == old(buf[..at])
      ensures rv.Count? ==> rv.n <= cap && received == old(received) + buf[at..at + rv.n]
      ensures !rv.Count? ==> received == old(received)
      ensures Reads(old(arrivals), cap, rv, arrivals) && (rv.Count? ==> buf[at..at + rv.n] == old(arrivals)[0].data[..rv.n])
    {
      if arrivals == [] {
        return Again;
      }
      var e := arrivals[0];
      arrivals := arrivals[1..];
      match e
      case Chunk(data) =>
        var n := if |data| <= cap then |data| else cap;
        arrivals := LeftOver(data, n) + arrivals;
        forall i | 0 <= i < n {
          buf[at + i] := data[i];
        }
        assert buf[at..at + n] == data[..n];
        received := received + data[..n];
        rv := Count(n);
      case ReadIntr => rv := Intr;
      case ReadAgain => rv := Again;
      case ReadFail => rv := Fail;
    }

    /** write(): some of the bytes. */
    method Write(buf: array<byte>, at: nat, len: nat) returns (rv: Rv)
      requires at + len <= buf.Length
      modifies `accepts, `sent
      ensures rv.Count? ==> rv.n <= len && sent == old(sent) + buf[at..at + rv.n]
      ensures !rv.Count? ==> sent == old(sent)
      ensures Writes(old(accepts), len, rv, accepts)
    {
      if accepts == [] {
        return Again;
      }
      var e := accepts[0];
      accepts := accepts[1..];
      match e
      case Wrote(k) =>
        var n := if k <= len then k else len;
        sent := sent + buf[at..at + n];
        rv := Count(n);
      case WriteIntr => rv := Intr;
      case WriteAgain => rv := Again;
      case WriteFail => rv := Fail;
    }
  }

  /** What is left of a chunk of which `n` bytes were read. */
  function LeftOver(data: bytes, n: nat): seq<ReadEvent>
    requires n <= |data|
  {
    if n < |data| then [Chunk(data[n..])] else []
  }

  /** One read() of at most `cap` bytes: its result, and the events left. */
  ghost predicate Reads(before: seq<ReadEvent>, cap: nat, rv: Rv, after: seq<ReadEvent>) {
    if before == [] then rv == Again && after == []
    else
      match before[0]
      case Chunk(data) =>
        rv.Count? && rv.n == (if |data| <= cap then |data| else cap) && after == LeftOver(data, rv.n) + before[1..]
      case ReadIntr => rv == Intr && after == before[1..]
      case ReadAgain => rv == Again && after == before[1..]
      case ReadFail => rv == Fail && after == before[1..]
  }

  /** One write() of `len` bytes. */
  ghost predicate Writes(before: seq<WriteEvent>, len: nat, rv: Rv, after: seq<WriteEvent>) {
    if before == [] then rv == Again && after == []
    else
      && after == before[1..]
      && match before[0] {
           case Wrote(k) => rv == Count(if k <= len then k else len)
           case WriteIntr => rv == Intr
           case WriteAgain => rv == Again
           case WriteFail => rv == Fail
         }
  }

  ghost function Weight(arrivals: seq<ReadEvent>): nat {
    if arrivals == [] then 0 else (if arrivals[0].Chunk? then 1 + |arrivals[0].data| else 1) + Weight(arrivals[1..])
  }

  lemma {:induction false} ReadsLess(before: seq<ReadEvent>, cap: nat, rv: Rv, after: seq<ReadEvent>)
    requires Reads(before, cap, rv, after) && cap > 0
    ensures Weight(after) <= Weight(before) && (before != [] && before[0] != Chunk([]) ==> Weight(after) < Weight(before))
  {
    if before != [] && before[0].Chunk? && rv.n < |before[0].data| {
      assert after[1..] == before[1..];
    } else if before != [] {
      assert after == before[1..];
    }
  }

  // ---- What a call comes to ----

  /** A connection and the events ahead of it. */
  datatype View = View(state: State, pending: bytes, unread: bytes, arrivals: seq<ReadEvent>, accepts: seq<WriteEvent>)

  /** Send until everything is sent, or the socket blocks or fails. */
  ghost function Flush(v: View): (w: View)
    requires v.pending != []
    ensures w.unread == v.unread && w.arrivals == v.arrivals && (w.state == REQ && v.state == RES ==> w.pending == [])
    decreases |v.accepts|
  {
    if v.accepts == [] then v
    else
      var w := v.(accepts := v.accepts[1..]);
      match v.accepts[0]
      case Wrote(k) => if k >= |v.pending| then w.(state := REQ, pending := []) else Flush(w.(pending := v.pending[k..]))
      case WriteIntr => Flush(w)
      case WriteAgain => w
      case WriteFail => w.(state := END)
  }

  lemma FlushStep(v: View, rv: Rv, after: seq<WriteEvent>)
    requires v.pending != [] && Writes(v.accepts, |v.pending|, rv, after)
    ensures rv.Again? ==> Flush(v) == v.(accepts := after)
    ensures rv.Fail? ==> Flush(v) == v.(state := END, accepts := after)
    ensures rv == Count(|v.pending|) ==> Flush(v) == v.(state := REQ, pending := [], accepts := after)
    ensures rv.Count? && rv.n < |v.pending| ==> Flush(v) == Flush(v.(pending := v.pending[rv.n..], accepts := after))
  {
  }

  /** What the socket took. */
  ghost function Taken(events: seq<WriteEvent>): nat {
    if events == [] then 0 else (if events[0].Wrote? then events[0].n else 0) + Taken(events[1..])
  }

  /** `c` events made `v` into `w`: only the last of them can block or fail, which decides whether the connection waits or
      ends; it is done as soon as the socket has taken everything, and what it has not taken is pending. */
  ghost predicate FlushedBy(v: View, w: View, c: nat) {
    && c <= |v.accepts| && w.accepts == v.accepts[c..] && w.unread == v.unread && w.arrivals == v.arrivals
    && (forall i | 0 <= i < c - 1 :: v.accepts[i].Wrote? || v.accepts[i].WriteIntr?)
    && (forall i | 0 <= i < c :: Taken(v.accepts[..i]) < |v.pending|)
    && var n := Taken(v.accepts[..c]);
       && (w.state == REQ <==> n >= |v.pending|)
       && (w.state == END <==> c > 0 && v.accepts[c - 1] == WriteFail)
       && (w.state == RES ==> (c > 0 && v.accepts[c - 1] == WriteAgain) || c == |v.accepts|)
       && w.pending == if n >= |v.pending| then [] else v.pending[n..]
  }

  lemma TakenMore(events: seq<WriteEvent>, i: nat)
    requires 0 < i <= |events|
    ensures Taken(events[..i]) == (if events[0].Wrote? then events[0].n else 0) + Taken(events[1..][..i - 1])
  {
    assert events[..i][1..] == events[1..][..i - 1];
  }

  /** One event more at the front. */
  lemma {:induction false} FlushedMore(v: View, u: View, w: View, c: nat)
    requires v.accepts != [] && v.pending != [] && FlushedBy(u, w, c)
    requires v.accepts[0].Wrote? || v.accepts[0].WriteIntr?
    requires var k := if v.accepts[0].Wrote? then v.accepts[0].n else 0;
      k < |v.pending| && u == v.(accepts := v.accepts[1..], pending := v.pending[k..])
    ensures FlushedBy(v, w, c + 1)
  {
    assert v.accepts[..0] == [];
    assert forall i | 1 <= i < c + 1 :: v.accepts[i] == u.accepts[i - 1];
    forall i | 1 <= i <= c + 1
      ensures Taken(v.accepts[..i]) == (if v.accepts[0].Wrote? then v.accepts[0].n else 0) + Taken(u.accepts[..i - 1])
    {
      TakenMore(v.accepts, i);
    }
    hide Taken;
    assert Taken(v.accepts[..c + 1]) == (if v.accepts[0].Wrote? then v.accepts[0].n else 0) + Taken(u.accepts[..c]);
  }

  lemma {:induction false} FlushLaw(v: View) returns (c: nat)
    requires v.state == RES && v.pending != []
    ensures FlushedBy(v, Flush(v), c)
    decreases |v.accepts|
  {
    assert v.accepts[..0] == [];
    if v.accepts == [] {
      c := 0;
    } else {
      assert v.accepts[..1] == [v.accepts[0]] && [v.accepts[0]][..0] == [];
      var k := if v.accepts[0].Wrote? then v.accepts[0].n else 0;
      if (v.accepts[0].Wrote? && k < |v.pending|) || v.accepts[0].WriteIntr? {
        var u := v.(accepts := v.accepts[1..], pending := v.pending[k..]);
        assert v.pending[0..] == v.pending;
        c := FlushLaw(u);
        FlushedMore(v, u, Flush(v), c);
        c := c + 1;
      } else {
        c := 1;
      }
    }
  }

  /** Answer the complete frames until one has to wait for its output. */
  ghost function Answer(v: View): (w: View)
    ensures w.arrivals == v.arrivals
    ensures w.state == REQ ==> NeedsMore(w.unread)
    decreases |v.unread|
  {
    if NeedsMore(v.unread) then v
    else if !HasFrame(v.unread) then v.(state := END)
    else
      var n := FrameSize(v.unread);
      var w := Flush(v.(state := RES, pending := v.unread[..n], unread := v.unread[n..]));
      if w.state == REQ then Answer(w) else w
  }

  lemma AnswerNothing(v: View)
    requires !HasFrame(v.unread)
    ensures Answer(v) == if NeedsMore(v.unread) then v else v.(state := END)
  {
  }

  lemma AnswerFrame(v: View)
    requires HasFrame(v.unread)
    ensures var n := FrameSize(v.unread);
      var w := Flush(v.(state := RES, pending := v.unread[..n], unread := v.unread[n..]));
      Answer(v) == if w.state == REQ then Answer(w) else w
  {
  }

  /** Read and answer for as long as data arrives and is answered. */
  ghost function Receive(v: View): (w: View)
    requires |v.unread| < BUF_SIZE
    decreases Weight(v.arrivals)
  {
    if v.arrivals == [] then v
    else
      var w := v.(arrivals := v.arrivals[1..]);
      match v.arrivals[0]
      case ReadIntr => Receive(w)
      case ReadAgain => w
      case ReadFail => w.(state := END)
      case Chunk(data) =>
        if data == [] then w.(state := END)
        else
          var u := Answer(Got(v));
          if u.state == REQ then Receive(u) else u
  }

  /** As much of the first chunk as there is room for has been read. */
  ghost function Got(v: View): (w: View)
    requires |v.unread| < BUF_SIZE && v.arrivals != [] && v.arrivals[0].Chunk? && v.arrivals[0].data != []
    ensures Weight(w.arrivals) < Weight(v.arrivals)
  {
    var data, cap := v.arrivals[0].data, BUF_SIZE - |v.unread|;
    var n := if |data| <= cap then |data| else cap;
    var w := v.(unread := v.unread + data[..n], arrivals := LeftOver(data, n) + v.arrivals[1..]);
    ReadsLess(v.arrivals, cap, Count(n), w.arrivals);
    w
  }

  lemma ReceiveChunk(v: View)
    requires |v.unread| < BUF_SIZE && v.arrivals != [] && v.arrivals[0].Chunk? && v.arrivals[0].data != []
    ensures var u := Answer(Got(v)); Receive(v) == if u.state == REQ then Receive(u) else u
  {
    hide Answer, Got, Weight;
  }

  lemma ReceiveNothing(v: View, rv: Rv, after: seq<ReadEvent>)
    requires |v.unread| < BUF_SIZE && Reads(v.arrivals, BUF_SIZE - |v.unread|, rv, after)
    ensures rv.Again? ==> Receive(v) == v.(arrivals := after)
    ensures rv.Fail? || rv == Count(0) ==> Receive(v) == v.(state := END, arrivals := after)
  {
    hide Answer, Got, Weight;
  }

  /** What has been read is what the chunk had, up to the room there was. */
  lemma GotRead(v: View, rv: Rv, after: seq<ReadEvent>)
    requires |v.unread| < BUF_SIZE && Reads(v.arrivals, BUF_SIZE - |v.unread|, rv, after) && rv.Count? && rv.n > 0
    ensures v.arrivals[0].data != [] && Got(v) == v.(unread := v.unread + v.arrivals[0].data[..rv.n], arrivals := after)
  {
    hide Weight;
  }

  /** After the first read, the later events are the same. */
  lemma LaterArrivals(v: View)
    requires |v.unread| < BUF_SIZE && v.arrivals != [] && v.arrivals[0].Chunk? && v.arrivals[0].data != []
    ensures var a := Got(v).arrivals;
      || (|a| < |v.arrivals| && a == v.arrivals[1..])
      || (|a| == |v.arrivals| && a[1..] == v.arrivals[1..] && a[0].Chunk? && a[0].data != []
          && forall i | 1 <= i <= |a| :: a[i..] == v.arrivals[i..])
  {
    hide Weight;
    var a := Got(v).arrivals;
    if |a| == |v.arrivals| {
      assert a == [a[0]] + v.arrivals[1..] && v.arrivals == [v.arrivals[0]] + v.arrivals[1..];
    }
  }

  /** `c` events were read up to one that blocks, or all there were. */
  ghost predicate ReadUp(before: seq<ReadEvent>, after: seq<ReadEvent>, c: nat) {
    && c <= |before| && after == before[c..]
    && (c == |before| || (c > 0 && before[c - 1] == ReadAgain))
    && forall i | 0 <= i < c - 1 :: before[i].ReadIntr? || (before[i].Chunk? && before[i].data != [])
  }

  /** Reading goes on until the socket has nothing more, if nothing else stops it. */
  lemma {:induction false} ReceiveLaw(v: View) returns (c: nat)
    requires |v.unread| < BUF_SIZE && Receive(v).state == REQ
    ensures ReadUp(v.arrivals, Receive(v).arrivals, c)
    decreases Weight(v.arrivals)
  {
    hide Answer, Got;
    if v.arrivals == [] {
      c := 0;
    } else if v.arrivals[0].ReadIntr? {
      c := ReceiveLaw(v.(arrivals := v.arrivals[1..]));
      c := c + 1;
    } else if v.arrivals[0].Chunk? && v.arrivals[0].data != [] {
      ReceiveChunk(v);
      var u := Answer(Got(v));
      c := ReceiveLaw(u);
      LaterArrivals(v);
      if |u.arrivals| < |v.arrivals| {
        assert u.arrivals == v.arrivals[1..];
        c := c + 1;
      }
    } else {
      c := 1;
    }
  }

  /** One call of connection_io. */
  ghost function Io(v: View): View
    requires (v.state == REQ && |v.unread| < BUF_SIZE) || (v.state == RES && v.pending != [])
  {
    if v.state == REQ then Receive(v) else Flush(v)
  }

  class Conn {
    const fd: Socket
    var state: State
    const rbuf: array<byte>
    var rbufSize: nat
    const wbuf: array<byte>
    var wbufSize: nat
    var wbufSent: nat

    ghost predicate Sizes()
      reads this
    {
      && rbuf.Length == BUF_SIZE && wbuf.Length == BUF_SIZE && rbuf != wbuf
      && rbufSize <= BUF_SIZE && wbufSent <= wbufSize <= BUF_SIZE
    }

    ghost function Pending(): bytes
      requires Sizes()
      reads this, wbuf
    {
      wbuf[wbufSent..wbufSize]
    }

    ghost function Unread(): bytes
      requires Sizes()
      reads this, rbuf
    {
      rbuf[..rbufSize]
    }

    /** The connection and what is ahead of it, as values. */
    ghost function Look(): View
      requires Sizes()
      reads this, rbuf, wbuf, fd
    {
      View(state, Pending(), Unread(), fd.arrivals, fd.accepts)
    }

    /** What has been answered, sent or not. */
    ghost function Answered(): bytes
      requires Sizes()
      reads this, wbuf, fd
    {
      fd.sent + Pending()
    }

    /** Nothing is lost, repeated or reordered; only whole frames have been taken from the input; output is
        pending exactly in STATE_RES. */
    ghost predicate Inv()
      reads this, rbuf, wbuf, fd
    {
      && Sizes()
      && fd.received == Answered() + Unread()
      && WholeFrames(Answered())
      && (state == REQ ==> wbufSize == 0)
      && (state == RES ==> wbufSent < wbufSize && rbufSize <= K_MAX_MSG)
    }

    /** Between two handlers there is room in the input buffer. */
    ghost predicate Valid()
      reads this, rbuf, wbuf, fd
    {
      Inv() && (state == REQ ==> rbufSize < BUF_SIZE)
    }

    /** accept_new_conn */
    constructor (fd: Socket)
      requires fd.received == [] && fd.sent == []
      ensures Valid() && state == REQ && this.fd == fd && fresh(rbuf) && fresh(wbuf)
    {
      this.fd, state, rbufSize, wbufSize, wbufSent := fd, REQ, 0, 0, 0;
      rbuf := new byte[BUF_SIZE];
      wbuf := new byte[BUF_SIZE];
    }

    /** The do-while loops around write() and read(): a call that is interrupted is made again. */
    method WriteRetry() returns (rv: Rv, ghost before: seq<WriteEvent>)
      requires Sizes() && wbufSent < wbufSize
      modifies fd`accepts, fd`sent
      ensures Flush(old(Look())) == Flush(old(Look()).(accepts := before)) && |before| <= |old(fd.accepts)|
      ensures !rv.Intr? && Writes(before, wbufSize - wbufSent, rv, fd.accepts)
      ensures if rv.Count? then wbufSent + rv.n <= wbufSize && fd.sent == old(fd.sent) + wbuf[wbufSent..wbufSent + rv.n]
              else fd.sent == old(fd.sent)
    {
      while true
        invariant fd.sent == old(fd.sent) && |fd.accepts| <= |old(fd.accepts)|
        invariant Flush(old(Look())) == Flush(old(Look()).(accepts := fd.accepts))
        decreases |fd.accepts|
      {
        before := fd.accepts;
        var remain := wbufSize - wbufSent;
        rv := fd.Write(wbuf, wbufSent, remain);
        if !rv.Intr? {
          break;
        }
      }
    }

    method ReadRetry() returns (rv: Rv, ghost before: seq<ReadEvent>)
      requires Sizes() && rbufSize < BUF_SIZE
      modifies fd`arrivals, fd`received, rbuf
      ensures Receive(old(Look())) == Receive(old(Look()).(arrivals := before)) && Weight(before) <= Weight(old(fd.arrivals))
      ensures !rv.Intr? && Reads(before, BUF_SIZE - rbufSize, rv, fd.arrivals)
      ensures rbuf[..rbufSize] == old(rbuf[..rbufSize])
      ensures if rv.Count?
              then fd.received == old(fd.received) + rbuf[rbufSize..rbufSize + rv.n] && rbuf[rbufSize..rbufSize + rv.n] == before[0].data[..rv.n]
              else fd.received == old(fd.received)
    {
      while true
        invariant fd.received == old(fd.received) && rbuf[..rbufSize] == old(rbuf[..rbufSize])
        invariant Weight(fd.arrivals) <= Weight(old(fd.arrivals))
        invariant Receive(old(Look())) == Receive(old(Look()).(arrivals := fd.arrivals))
        decreases Weight(fd.arrivals)
      {
        before := fd.arrivals;
        var cap := BUF_SIZE - rbufSize;
        rv := fd.Read(rbuf, rbufSize, cap);
        if !rv.Intr? {
          break;
        }
      }
    }

    method TryFlushBuffer() returns (more: bool)
      requires Inv() && state == RES
      modifies this`state, this`wbufSize, this`wbufSent, fd`accepts, fd`sent
      ensures Inv() && Answered() == old(Answered())
      ensures if more then state == RES && Flush(Look()) == Flush(old(Look())) else Look() == Flush(old(Look()))
      ensures more ==> |fd.accepts| < |old(fd.accepts)|
    {
      hide Flush, WholeFrames;
      var rv, before := WriteRetry();
      FlushStep(old(Look()).(accepts := before), rv, fd.accepts);
      hide Writes;
      if rv.Again? {
        return false;
      }
      if rv.Fail? {
        state := END;
        return false;
      }
      assert old(Pending()) == wbuf[wbufSent..wbufSent + rv.n] + wbuf[wbufSent + rv.n..wbufSize];
      assert fd.sent + wbuf[wbufSent + rv.n..wbufSize] == old(Answered());
      assert wbuf[wbufSent + rv.n..wbufSize] == old(Pending())[rv.n..];
      wbufSent := wbufSent + rv.n;
      if wbufSent == wbufSize {
        assert fd.sent == old(Answered());
        state := REQ;
        wbufSent := 0;
        wbufSize := 0;
        return false;
      }
      return true;
    }

    method StateRes() returns (ghost c: nat)
      requires Inv() && state == RES
      modifies this`state, this`wbufSize, this`wbufSent, fd`accepts, fd`sent
      ensures Inv() && Answered() == old(Answered()) && Look() == Flush(old(Look()))
      ensures FlushedBy(old(Look()), Look(), c)
    {
      hide Flush, FlushedBy;
      var more := true;
      while more
        invariant Inv() && Answered() == old(Answered()) && (more ==> state == RES)
        invariant (if more then Flush(Look()) else Look()) == Flush(old(Look()))
        decreases more, |fd.accepts|
      {
        more := TryFlushBuffer();
      }
      c := FlushLaw(old(Look()));
    }

    /** Answer the frame at the front of the input, if it is complete: echo it. */
    method TryOneRequest() returns (more: bool)
      requires Inv() && state == REQ
      modifies this, rbuf, wbuf, fd`accepts, fd`sent
      ensures Inv()
      ensures more <==> state == REQ && HasFrame(old(Unread()))
      ensures (if more then Answer(Look()) else Look()) == Answer(old(Look()))
      ensures HasFrame(old(Unread())) ==>
                var n := FrameSize(old(Unread()));
                Answered() == old(Answered()) + old(Unread())[..n] && Unread() == old(Unread())[n..]
      ensures !HasFrame(old(Unread())) ==>
                && Answered() == old(Answered()) && Unread() == old(Unread())
                && state == if NeedsMore(Unread()) then REQ else END
    {
      hide Answer, Flush, WholeFrames;
      if !HasFrame(Unread()) {
        AnswerNothing(Look());
      }
      if rbufSize < 4 {
        return false;
      }
      ghost var unread := Unread();
      assert unread[0..4] == rbuf[0..4];
      var len := De32(rbuf[..4], 0);
      assert rbuf[..4][0..4] == rbuf[0..4];
      if len > K_MAX_MSG {
        state := END;
        return false;
      }
      if 4 + len > rbufSize {
        return false;
      }
      assert rbuf[0..4] == Unread()[0..4];
      AnswerFrame(Look());
      TakeFrame(len);
      ghost var c := StateRes();
      return state == REQ;
    }

    /** Copy the frame to the output buffer and move the rest of the input to the front. */
    method TakeFrame(len: nat)
      requires Inv() && state == REQ && HasFrame(Unread()) && 4 + len == FrameSize(Unread())
      modifies this`wbufSize, this`rbufSize, this`state, rbuf, wbuf
      ensures Inv() && state == RES && Pending() == old(Unread())[..4 + len]
      ensures Answered() == old(Answered()) + old(Unread())[..4 + len] && Unread() == old(Unread())[4 + len..]
    {
      ghost var unread, answered := Unread(), Answered();
      FrameTaken(answered, unread);
      CopyFrame(len);
      wbufSize := 4 + len;
      assert Pending() == unread[..4 + len];
      assert Unread() == unread;
      DropFrame(len);
      state := RES;
      assert Answered() == answered + unread[..4 + len];
    }

    method CopyFrame(len: nat)
      requires Sizes() && HasFrame(Unread()) && 4 + len == FrameSize(Unread())
      modifies wbuf
      ensures wbuf[..4 + len] == Unread()[..4 + len]
    {
      var word := Le32(len);
      assert word == Unread()[..4] by { Le32Of(Unread(), 0); }
      forall i | 0 <= i < 4 {
        wbuf[i] := word[i];
      }
      assert wbuf[..4] == Unread()[..4];
      forall i | 4 <= i < 4 + len {
        wbuf[i] := rbuf[i];
      }
    }

    method DropFrame(len: nat)
      requires Sizes() && 4 + len <= rbufSize
      modifies this`rbufSize, rbuf
      ensures Sizes() && Unread() == old(Unread())[4 + len..]
    {
      var remain := rbufSize - 4 - len;
      forall i | 0 <= i < remain {
        rbuf[i] := rbuf[4 + len + i];
      }
      rbufSize := remain;
    }

    /** Read, and count what was read as input. */
    method ReadInput() returns (rv: Rv, ghost before: seq<ReadEvent>)
      requires Sizes() && rbufSize < BUF_SIZE
      modifies fd`arrivals, fd`received, rbuf, this`rbufSize
      ensures Receive(old(Look())) == Receive(old(Look()).(arrivals := before)) && Weight(before) <= Weight(old(fd.arrivals))
      ensures !rv.Intr? && Reads(before, BUF_SIZE - old(rbufSize), rv, fd.arrivals) && Sizes()
      ensures var data := if rv.Count? then before[0].data[..rv.n] else [];
        fd.received == old(fd.received) + data && Unread() == old(Unread()) + data
    {
      hide Receive, Weight;
      rv, before := ReadRetry();
      if rv.Count? {
        assert rbuf[..rbufSize + rv.n] == rbuf[..rbufSize] + rbuf[rbufSize..rbufSize + rv.n];
        rbufSize := rbufSize + rv.n;
      }
    }

    /** Read once, then answer every complete frame until one has to wait for its output. */
    method TryFillBuffer() returns (more: bool)
      requires Valid() && state == REQ
      modifies this, rbuf, wbuf, fd
      ensures Valid() && old(fd.received) <= fd.received
      ensures more ==> Weight(fd.arrivals) < Weight(old(fd.arrivals))
      ensures more <==> state == REQ && fd.received != old(fd.received)
      ensures (if more then Receive(Look()) else Look()) == Receive(old(Look()))
      ensures more ==> NeedsMore(Unread())
      ensures state == REQ && !more ==> Unread() == old(Unread())
    {
      hide Receive, Answer, Got, Weight, HasFrame, WholeFrames;
      ghost var unread := Unread();
      var rv, before := ReadInput();
      ghost var v := old(Look()).(arrivals := before);
      ReceiveNothing(v, rv, fd.arrivals);
      if rv.Again? {
        return false;
      }
      if rv.Fail? {
        state := END;
        return false;
      }
      if rv.n == 0 {
        state := END;
        return false;
      }
      GotRead(v, rv, fd.arrivals);
      ReceiveChunk(v);
      ReadsLess(before, BUF_SIZE - |unread|, rv, fd.arrivals);
      hide Reads;
      assert fd.received == Answered() + Unread();
      AnswerAll();
      return state == REQ;
    }

    method AnswerAll()
      requires Inv() && state == REQ
      modifies this, rbuf, wbuf, fd`accepts, fd`sent
      ensures Valid() && Look() == Answer(old(Look()))
    {
      var more := true;
      while more
        invariant Inv() && (more ==> state == REQ)
        invariant (if more then Answer(Look()) else Look()) == Answer(old(Look()))
        decreases more, rbufSize
      {
        ghost var unread := Unread();
        more := TryOneRequest();
      }
    }

    method StateReq() returns (ghost c: nat)
      requires Valid() && state == REQ
      modifies this, rbuf, wbuf, fd
      ensures Valid() && old(fd.received) <= fd.received && Look() == Receive(old(Look()))
      ensures state == REQ ==> if fd.received == old(fd.received) then Unread() == old(Unread()) else NeedsMore(Unread())
      ensures state == REQ ==> ReadUp(old(fd.arrivals), fd.arrivals, c)
    {
      c := 0;
      if Receive(Look()).state == REQ {
        c := ReceiveLaw(Look());
      }
      hide Receive, ReadUp, WholeFrames, Weight;
      var more := true;
      while more
        invariant Valid() && old(fd.received) <= fd.received && (more ==> state == REQ)
        invariant (if more then Receive(Look()) else Look()) == Receive(old(Look()))
        invariant state == REQ ==> if fd.received == old(fd.received) then Unread() == old(Unread()) else NeedsMore(Unread())
        decreases more, Weight(fd.arrivals)
      {
        more := TryFillBuffer();
      }
    }

    /** connection_io: one call of the event loop. In STATE_RES it only sends; the input waits. A complete frame is left
        unanswered in STATE_REQ exactly when it was there before and the call did not read. */
    method ConnectionIo() returns (ghost c: nat)
      requires Valid() && state != END
      modifies this, rbuf, wbuf, fd
      ensures Valid() && old(fd.received) <= fd.received && Look() == Io(old(Look()))
      ensures old(state) == RES ==> Answered() == old(Answered()) && FlushedBy(old(Look()), Look(), c)
      ensures old(state) == REQ && state == REQ ==> ReadUp(old(fd.arrivals), fd.arrivals, c)
      ensures state == REQ ==>
                (HasFrame(Unread()) <==> HasFrame(old(Unread())) && (old(state) == RES || fd.received == old(fd.received)))
    {
      if state == REQ {
        c := StateReq();
      } else {
        c := StateRes();
      }
    }
  }

  /** That does happen: two empty frames arrive at once and the output of the first has to wait. When it is sent, the
      second frame is in the buffer, and a call that reads nothing leaves it there. */
  method RequestWaits() returns (c: Conn)
    ensures c.Valid() && c.state == REQ && HasFrame(c.Unread()) && c.Pending() == []
  {
    var frames: bytes := Le32(0) + Le32(0);
    var fd := new Socket([Chunk(frames)], [WriteAgain, Wrote(4)]);
    c := new Conn(fd);
    ghost var v := c.Look();
    ghost var n := c.ConnectionIo();
    TwoFrames(v);
    n := c.ConnectionIo();
    n := c.ConnectionIo();
  }

  lemma {:induction false} TwoFrames(v: View)
    requires v == View(REQ, [], [], [Chunk(Le32(0) + Le32(0))], [WriteAgain, Wrote(4)])
    ensures Io(v) == View(RES, Le32(0), Le32(0), [], [Wrote(4)])
    ensures Io(Io(v)) == View(REQ, [], Le32(0), [], []) && HasFrame(Le32(0))
  {
    var f: bytes := Le32(0);
    De32Of(0, [], f);
    De32Of(0, [], []);
    assert [] + f + f == f + f && [] + f + [] == f && (f + f)[..4] == f && (f + f)[4..] == f && (f + f)[..8] == f + f;
    var u := View(REQ, [], f + f, [], [WriteAgain, Wrote(4)]);
    hide Le, Answer, Receive;
    AnswerFrame(u);
    assert LeftOver(f + f, 8) + v.arrivals[1..] == [];
    GotRead(v, Count(8), []);
    ReceiveChunk(v);
    assert v.(unread := [] + (f + f)[..8], arrivals := []) == u;
    assert Flush(View(RES, f, f, [], [WriteAgain, Wrote(4)])) == View(RES, f, f, [], [Wrote(4)]);
  }

  /** Any number of calls on a new connection: what was sent, what waits to be sent and what waits to be read are
      what was received, and the first two are whole frames. */
  method Serve(fd: Socket, calls: nat) returns (c: Conn)
    requires fd.received == [] && fd.sent == []
    modifies fd
    ensures c.Sizes() && c.fd == fd
    ensures fd.received == fd.sent + c.Pending() + c.Unread() && WholeFrames(fd.sent + c.Pending())
    ensures c.state == REQ ==> c.Pending() == [] && |c.Unread()| < BUF_SIZE
  {
    c := new Conn(fd);
    var i := 0;
    while i < calls && c.state != END
      invariant c.Valid() && c.fd == fd && fresh(c) && fresh(c.rbuf) && fresh(c.wbuf)
    {
      ghost var n := c.ConnectionIo();
      i := i + 1;
    }
  }

  lemma FrameTaken(answered: bytes, unread: bytes)
    requires WholeFrames(answered) && HasFrame(unread)
    ensures var n := FrameSize(unread);
      answered + unread == (answered + unread[..n]) + unread[n..] && WholeFrames(answered + unread[..n])
  {
    var n := FrameSize(unread);
    assert unread == unread[..n] + unread[n..];
    FrameOfPrefix(unread);
    WholeFramesAppend(answered, unread[..n]);
  }

  lemma FrameOfPrefix(b: bytes)
    requires HasFrame(b)
    ensures HasFrame(b[..FrameSize(b)]) && FrameSize(b[..FrameSize(b)]) == FrameSize(b)
  {
    assert b[..FrameSize(b)][0..4] == b[0..4];
  }
}
