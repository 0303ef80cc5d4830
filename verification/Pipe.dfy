/** The pipe of kernel/terminal.cpp: a byte stream in packets of at most 16 bytes through a mailbox. */
module Pipe {
  import opened Division
  import Words
  import opened Messages

  type Byte = Words.Byte

  /** The reader's end: bytes kept from the last packet, whether the end was seen, and the mailbox. */
  datatype Reader = Reader(kept: seq<Byte>, closed: bool, box: seq<Message>)

  /** Blocked: the mailbox is empty, and the reader sleeps until a message comes. */
  datatype ReadResult = Returned(reader: Reader, bytes: seq<Byte>) | Blocked(reader: Reader)

  /** Read: kept bytes first; then messages are taken until one of the pipe comes. */
  function Read(r: Reader, len: nat): ReadResult
    decreases |r.box|
  {
    if |r.kept| > 0 then
      var n := Min(|r.kept|, len);
      Returned(r.(kept := r.kept[n..]), r.kept[..n])
    else if r.closed then Returned(r, [])
    else if r.box == [] then Blocked(r)
    else
      var rest := r.(box := r.box[1..]);
      match r.box[0]
      case Pipe(data) =>
        if data == [] then Returned(rest.(closed := true), [])
        else
          var n := Min(|data|, len);
          Returned(rest.(kept := data[n..]), data[..n])
      case _ => Read(rest, len)
  }

  // ---------------------------------------------------------------- the byte queue behind it

  /** The bytes in a mailbox. */
  function Payload(box: seq<Message>): seq<Byte> {
    if box == [] then []
    else (if box[0].Pipe? then box[0].data else []) + Payload(box[1..])
  }

  function Pending(r: Reader): seq<Byte> {
    r.kept + Payload(r.box)
  }

  predicate IsEnd(m: Message) {
    m.Pipe? && m.data == []
  }

  /** The writer has finished, as far as the reader can tell in the end. */
  ghost predicate Finished(r: Reader) {
    r.closed || exists i :: 0 <= i < |r.box| && IsEnd(r.box[i])
  }

  /** Packets fit a message, and no bytes come behind the end. */
  ghost predicate Valid(r: Reader) {
    && |r.kept| <= PIPE_DATA
    && (forall i | 0 <= i < |r.box| && r.box[i].Pipe? :: |r.box[i].data| <= PIPE_DATA)
    && (r.closed ==> r.kept == [] && Payload(r.box) == [])
    && forall i | 0 <= i < |r.box| && IsEnd(r.box[i]) :: Payload(r.box[i..]) == []
  }

  lemma {:induction false} PayloadAppend(a: seq<Message>, b: seq<Message>)
    ensures Payload(a + b) == Payload(a) + Payload(b)
    decreases |a|
  {
    if a == [] {
      assert a + b == b;
    } else {
      PayloadAppend(a[1..], b);
      assert (a + b)[1..] == a[1..] + b;
      assert Payload(a) == (if a[0].Pipe? then a[0].data else []) + Payload(a[1..]);
    }
  }

  /** Taking the first message keeps everything that is promised about the others. */
  lemma RestIsValid(r: Reader)
    requires Valid(r) && r.kept == [] && r.box != [] && !r.closed
    ensures !IsEnd(r.box[0]) ==> Valid(r.(box := r.box[1..])) && (Finished(r.(box := r.box[1..])) <==> Finished(r))
    ensures IsEnd(r.box[0]) ==> Payload(r.box[1..]) == [] && Finished(r)
    ensures forall i | 0 <= i < |r.box[1..]| && IsEnd(r.box[1..][i]) :: Payload(r.box[1..][i..]) == []
  {
    var rest := r.box[1..];
    assert r.box[0..] == r.box;
    forall i | 0 <= i < |rest| && IsEnd(rest[i])
      ensures Payload(rest[i..]) == []
    {
      assert IsEnd(r.box[i + 1]) && rest[i..] == r.box[i + 1..];
    }
    if Finished(r) && !IsEnd(r.box[0]) {
      var i :| 0 <= i < |r.box| && IsEnd(r.box[i]);
      assert IsEnd(rest[i - 1]);
    }
    if Finished(r.(box := rest)) {
      var i :| 0 <= i < |rest| && IsEnd(rest[i]);
      assert IsEnd(r.box[i + 1]);
    }
  }

  /** The result takes bytes off the front of the byte queue. */
  ghost predicate TakesFront(r: Reader, len: nat, result: ReadResult) {
    match result
    case Returned(r', bytes) =>
      && Valid(r')
      && Pending(r) == bytes + Pending(r')
      && |bytes| <= len
      && (bytes == [] <==> Pending(r) == [])
      && (Finished(r') <==> Finished(r))
      && (bytes == [] ==> Finished(r) && r'.closed)
    case Blocked(r') =>
      Valid(r') && Pending(r) == [] && Pending(r') == [] && !Finished(r) && !Finished(r') && r'.box == []
  }

  lemma ReadKept(r: Reader, len: nat)
    requires Valid(r) && len > 0 && (r.kept != [] || r.closed || r.box == [])
    ensures TakesFront(r, len, Read(r, len))
  {
    hide IsEnd;
    if r.kept != [] {
      var n := Min(|r.kept|, len);
      assert r.kept == r.kept[..n] + r.kept[n..];
      Split(r.kept, n, Payload(r.box));
    }
  }

  lemma Split(s: seq<Byte>, n: nat, rest: seq<Byte>)
    requires n <= |s|
    ensures s + rest == s[..n] + (s[n..] + rest)
  {
  }

  lemma ReadPacket(r: Reader, len: nat)
    requires Valid(r) && len > 0 && r.kept == [] && !r.closed && r.box != [] && r.box[0].Pipe?
    ensures TakesFront(r, len, Read(r, len))
  {
    hide Finished;
    RestIsValid(r);
    FinishedFirst(r, Read(r, len).reader);
    var data := r.box[0].data;
    Split(data, Min(|data|, len), Payload(r.box[1..]));
  }

  /** Taking a packet keeps whether the writer has finished. */
  lemma FinishedFirst(r: Reader, r': Reader)
    requires r.kept == [] && !r.closed && r.box != [] && r'.box == r.box[1..] && r'.closed == IsEnd(r.box[0])
    requires !IsEnd(r.box[0]) ==> (Finished(r.(box := r.box[1..])) <==> Finished(r))
    ensures Finished(r') <==> Finished(r)
  {
    if IsEnd(r.box[0]) {
      assert Finished(r);
    }
  }

  lemma ReadSkips(r: Reader, len: nat)
    requires Valid(r) && r.kept == [] && !r.closed && r.box != [] && !r.box[0].Pipe?
    ensures var rest := r.(box := r.box[1..]);
            && Valid(rest) && Read(r, len) == Read(rest, len)
            && Pending(rest) == Pending(r) && (Finished(rest) <==> Finished(r))
  {
    RestIsValid(r);
  }

  /**
   * Read takes bytes off the front of the byte queue: some if there are any; none, with the end
   * reached, if there are none and the writer has finished; and it blocks otherwise.
   */
  lemma {:induction false} ReadIsFifo(r: Reader, len: nat)
    requires Valid(r) && len > 0
    ensures TakesFront(r, len, Read(r, len))
    decreases |r.box|
  {
    hide Read, Valid, Finished, Pending;
    if r.kept != [] || r.closed || r.box == [] {
      ReadKept(r, len);
    } else if r.box[0].Pipe? {
      ReadPacket(r, len);
    } else {
      ReadSkips(r, len);
      ReadIsFifo(r.(box := r.box[1..]), len);
    }
  }

  /** A read of no bytes returns none while there still are some: only positive lengths see the end. */
  lemma EmptyReadIsNoEnd(r: Reader)
    requires Valid(r) && Pending(r) != []
    ensures Read(r, 0).Returned? && Read(r, 0).bytes == []
    ensures Pending(Read(r, 0).reader) == Pending(r) && !Read(r, 0).reader.closed
    decreases |r.box|
  {
    if r.kept == [] {
      RestIsValid(r);
      if !r.box[0].Pipe? {
        EmptyReadIsNoEnd(r.(box := r.box[1..]));
      }
    }
  }

  /** A read takes as many of the kept bytes as it may, and the next messages only if none are kept. */
  lemma KeptBytesComeFirst(r: Reader, len: nat)
    requires r.kept != []
    ensures var n := if |r.kept| <= len then |r.kept| else len;
            Read(r, len) == Returned(Reader(r.kept[n..], r.closed, r.box), r.kept[..n])
  {
  }

  /**
   * With none kept, messages that are not the pipe's are dropped, and the first packet behind them is taken: as many of
   * its bytes as the read may have are returned and the others kept, and an empty packet is the end.
   */
  lemma {:induction false} FirstPacketIsTaken(stray: seq<Message>, data: seq<Byte>, rest: seq<Message>, len: nat)
    requires forall i | 0 <= i < |stray| :: !stray[i].Pipe?
    ensures var n := if |data| <= len then |data| else len;
            Read(Reader([], false, stray + [Message.Pipe(data)] + rest), len)
              == Returned(Reader(data[n..], data == [], rest), data[..n])
    decreases |stray|
  {
    var box := stray + [Message.Pipe(data)] + rest;
    if stray == [] {
      assert box[0] == Message.Pipe(data) && box[1..] == rest;
    } else {
      assert box[0] == stray[0] && box[1..] == stray[1..] + [Message.Pipe(data)] + rest;
      FirstPacketIsTaken(stray[1..], data, rest, len);
    }
  }

  // ---------------------------------------------------------------- writing

  /** The messages of one Write: as many bytes as fit, until all are sent. */
  function Packets(buf: seq<Byte>): seq<Message>
    decreases |buf|
  {
    if buf == [] then []
    else
      var n := Min(|buf|, PIPE_DATA);
      [Message.Pipe(buf[..n])] + Packets(buf[n..])
  }

  /** There is one packet for every 16 bytes or part of them, with the bytes of the buffer that start at its place. */
  lemma {:induction false} PacketsAreFull(buf: seq<Byte>, k: nat)
    ensures 16 * |Packets(buf)| < |buf| + 16 && |buf| <= 16 * |Packets(buf)|
    ensures k < |Packets(buf)| ==>
              && 16 * k < |buf|
              && Packets(buf)[k] == Message.Pipe(buf[16 * k..if 16 * k + 16 <= |buf| then 16 * k + 16 else |buf|])
    decreases |buf|
  {
    if buf != [] {
      var n := Min(|buf|, PIPE_DATA);
      var rest := buf[n..];
      PacketsAreFull(rest, if k > 0 then k - 1 else 0);
      if 0 < k < |Packets(buf)| {
        assert Packets(buf)[k] == Packets(rest)[k - 1];
        var e := if 16 * k + 16 <= |buf| then 16 * k + 16 else |buf|;
        assert n == 16 && rest[16 * (k - 1)..e - 16] == buf[16 * k..e];
      }
    }
  }

  /** They carry the bytes in order; each has some and none has too many. */
  lemma {:induction false} PacketsCarry(buf: seq<Byte>)
    ensures Payload(Packets(buf)) == buf
    ensures forall i | 0 <= i < |Packets(buf)| :: Packets(buf)[i].Pipe? && 0 < |Packets(buf)[i].data| <= PIPE_DATA
    decreases |buf|
  {
    if buf != [] {
      var n := Min(|buf|, PIPE_DATA);
      PacketsCarry(buf[n..]);
      assert Packets(buf)[1..] == Packets(buf[n..]);
      assert buf == buf[..n] + buf[n..];
    }
  }

  // ---------------------------------------------------------------- any interleaving

  /** A pipe with its history: all bytes written, all bytes read, and whether the writer has finished. */
  datatype Stream = Stream(reader: Reader, written: seq<Byte>, read: seq<Byte>, finished: bool)

  /** Sends happen one packet at a time, so reads and stray messages may come between those of one Write. */
  datatype Event = Packet(data: seq<Byte>) | Finish | Receive(len: nat) | Stray(m: Message)

  ghost predicate Enabled(s: Stream, e: Event) {
    match e
    case Packet(data) => !s.finished && 0 < |data| <= PIPE_DATA
    case Finish => true
    case Receive(len) => len > 0
    case Stray(m) => !m.Pipe?
  }

  function Sent(r: Reader, m: Message): Reader {
    r.(box := r.box + [m])
  }

  function Happened(s: Stream, e: Event): Stream {
    match e
    case Packet(data) => s.(reader := Sent(s.reader, Message.Pipe(data)), written := s.written + data)
    case Finish => s.(reader := Sent(s.reader, Message.Pipe([])), finished := true)
    case Receive(len) =>
      (match Read(s.reader, len)
       case Returned(r, bytes) => s.(reader := r, read := s.read + bytes)
       case Blocked(r) => s.(reader := r))
    case Stray(m) => s.(reader := Sent(s.reader, m))
  }

  /** Read bytes, then pending bytes, are the written bytes. */
  ghost predicate Inv(s: Stream) {
    && Valid(s.reader)
    && s.read + Pending(s.reader) == s.written
    && (s.finished <==> Finished(s.reader))
  }

  lemma SentIsValid(r: Reader, m: Message)
    requires Valid(r) && (m.Pipe? ==> |m.data| <= PIPE_DATA)
    requires Finished(r) ==> !m.Pipe? || m.data == []
    ensures Valid(Sent(r, m))
    ensures Pending(Sent(r, m)) == Pending(r) + if m.Pipe? then m.data else []
    ensures Finished(Sent(r, m)) <==> Finished(r) || IsEnd(m)
  {
    var r' := Sent(r, m);
    PayloadAppend(r.box, [m]);
    assert Payload([m]) == if m.Pipe? then m.data else [] by {
      assert [m][1..] == [];
    }
    forall i | 0 <= i < |r'.box| && IsEnd(r'.box[i])
      ensures Payload(r'.box[i..]) == []
    {
      if i < |r.box| {
        assert IsEnd(r.box[i]);
        assert r'.box[i..] == r.box[i..] + [m];
        PayloadAppend(r.box[i..], [m]);
      } else {
        assert r'.box[i..] == [m];
      }
    }
    SentFinishes(r, m);
  }

  lemma SentFinishes(r: Reader, m: Message)
    ensures Finished(Sent(r, m)) <==> Finished(r) || IsEnd(m)
  {
    var r' := Sent(r, m);
    assert r'.box[|r.box|] == m;
    if i :| 0 <= i < |r.box| && IsEnd(r.box[i]) {
      assert IsEnd(r'.box[i]);
    }
  }

  lemma SendKeepsInv(s: Stream, m: Message, s': Stream)
    requires Inv(s) && (m.Pipe? ==> |m.data| <= PIPE_DATA) && (s.finished ==> !m.Pipe? || m.data == [])
    requires s'.reader == Sent(s.reader, m) && s'.read == s.read
    requires s'.written == s.written + if m.Pipe? then m.data else []
    requires s'.finished == (s.finished || IsEnd(m))
    ensures Inv(s')
  {
    SentIsValid(s.reader, m);
    hide Valid, Finished, Pending, Sent;
    var more := if m.Pipe? then m.data else [];
    assert s.read + (Pending(s.reader) + more) == s.read + Pending(s.reader) + more;
  }

  lemma EventKeepsInv(s: Stream, e: Event)
    requires Inv(s) && Enabled(s, e)
    ensures Inv(Happened(s, e))
  {
    hide Inv;
    match e
    case Packet(data) => SendKeepsInv(s, Message.Pipe(data), Happened(s, e));
    case Finish => SendKeepsInv(s, Message.Pipe([]), Happened(s, e));
    case Receive(len) => ReceiveKeepsInv(s, len);
    case Stray(m) => SendKeepsInv(s, m, Happened(s, e));
  }

  lemma ReceiveKeepsInv(s: Stream, len: nat)
    requires Inv(s) && len > 0
    ensures Inv(Happened(s, Receive(len)))
  {
    hide Valid, Finished, Pending, Read;
    ReadIsFifo(s.reader, len);
  }

  const EMPTY := Stream(Reader([], false, []), [], [], false)

  ghost predicate Run(s: Stream, events: seq<Event>, s': Stream)
    decreases |events|
  {
    if events == [] then s' == s else Enabled(s, events[0]) && Run(Happened(s, events[0]), events[1..], s')
  }

  /** The pipe is a byte queue under any interleaving of packets, reads, finishing and stray messages. */
  lemma {:induction false} RunKeepsInv(s: Stream, events: seq<Event>, s': Stream)
    requires Inv(s) && Run(s, events, s')
    ensures Inv(s')
    decreases |events|
  {
    if events != [] {
      EventKeepsInv(s, events[0]);
      RunKeepsInv(Happened(s, events[0]), events[1..], s');
    }
  }

  /**
   * In any run from an empty pipe, a read returns no byte only after the writer finished and every
   * byte was delivered, and it does so then; with bytes left it returns some of them.
   */
  lemma EndMeansAllDelivered(events: seq<Event>, s: Stream, len: nat)
    requires Run(EMPTY, events, s) && len > 0
    ensures match Read(s.reader, len)
            case Returned(_, bytes) =>
              && s.read + bytes <= s.written
              && (bytes == [] <==> s.read == s.written)
              && (bytes == [] ==> s.finished && Happened(s, Receive(len)).reader.closed)
            case Blocked(_) => s.read == s.written && !s.finished
  {
    RunKeepsInv(EMPTY, events, s);
    ReadIsFifo(s.reader, len);
  }

  /** Once a read has returned no byte, every later one does, whatever happens in between. */
  lemma {:induction false} EndIsForever(s: Stream, events: seq<Event>, s': Stream, len: nat)
    requires Inv(s) && s.reader.closed && Run(s, events, s')
    ensures s'.reader.closed && Read(s'.reader, len) == Returned(s'.reader, [])
    decreases |events|
  {
    if events != [] {
      EventKeepsInv(s, events[0]);
      EndIsForever(Happened(s, events[0]), events[1..], s', len);
    }
  }
}
