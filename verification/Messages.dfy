/**
 Datagrams as packed messages, and what the two walks give back from them.
 */
module Messages {
  import opened Bytes
  import opened Wire
  import opened Framing
  import opened Attributes

  /** The bytes of exactly one message: its length field counts them. */
  predicate Framed(m: seq<Byte>) {
    HEADER_SIZE <= |m| && U32At(m, 0) == |m|
  }

  predicate AllFramed(msgs: seq<seq<Byte>>) {
    forall m | m in msgs :: Framed(m)
  }

  function Padded(m: seq<Byte>): (s: seq<Byte>)
    ensures |s| == Align4(|m|) && m <= s
  {
    m + Zeros(Align4(|m|) - |m|)
  }

  /** A datagram that carries these messages, each padded to the alignment. */
  function Pack(msgs: seq<seq<Byte>>): (s: seq<Byte>)
    ensures |s| % 4 == 0
  {
    if msgs == [] then [] else Padded(msgs[0]) + Pack(msgs[1..])
  }

  /** The longest run of leading messages whose padded bytes fit in n. */
  function Fitting(msgs: seq<seq<Byte>>, n: nat): seq<seq<Byte>> {
    if msgs == [] || Align4(|msgs[0]|) > n then []
    else [msgs[0]] + Fitting(msgs[1..], n - Align4(|msgs[0]|))
  }

  /** Fitting is a prefix, it fits, and one more message would not. */
  lemma {:induction false} FittingIsMaximal(msgs: seq<seq<Byte>>, n: nat)
    ensures Fitting(msgs, n) <= msgs
    ensures |Pack(Fitting(msgs, n))| <= n
    ensures var k := |Fitting(msgs, n)|; k < |msgs| ==> |Pack(msgs[..k + 1])| > n
    decreases |msgs|
  {
    if msgs != [] && Align4(|msgs[0]|) <= n {
      var rest := n - Align4(|msgs[0]|);
      FittingIsMaximal(msgs[1..], rest);
      var fit := Fitting(msgs, n);
      assert fit[1..] == Fitting(msgs[1..], rest);
      var k := |fit|;
      if k < |msgs| {
        assert msgs[..k + 1][1..] == msgs[1..][..k];
      }
    } else if msgs != [] {
      assert msgs[..1][1..] == [];
    }
  }

  lemma {:induction false} EverythingFits(msgs: seq<seq<Byte>>, n: nat)
    requires |Pack(msgs)| <= n
    ensures Fitting(msgs, n) == msgs
    decreases |msgs|
  {
    if msgs != [] {
      EverythingFits(msgs[1..], n - Align4(|msgs[0]|));
    }
  }

  /** Each view starts with the bytes of the message beside it. */
  ghost predicate ViewsOf(views: seq<seq<Byte>>, msgs: seq<seq<Byte>>) {
    |views| == |msgs| && forall i | 0 <= i < |msgs| :: msgs[i] <= views[i]
  }

  /** Cutting a packed datagram at any multiple of 4 makes the walk deliver
      exactly the messages that fit entirely, whatever stale bytes follow. */
  lemma {:induction false} TruncatedWalk(msgs: seq<seq<Byte>>, n: U32, stale: seq<Byte>)
    requires AllFramed(msgs)
    requires n % 4 == 0 && n <= |Pack(msgs)|
    ensures var w := WalkFrom(Cursor(Pack(msgs)[..n] + stale, n));
            !w.hangs && ViewsOf(Views(w.frames), Fitting(msgs, n))
    decreases |msgs|
  {
    hide U32At, NlmsgAlign, Align4, WalkFrom, NlmsgNext, NlmsgOk;
    var view := Pack(msgs)[..n] + stale;
    if msgs == [] {
      ShortWalk(view, n);
    } else {
      var m, rest := msgs[0], Pack(msgs[1..]);
      var step := Align4(|m|);
      if step <= n {
        var tail := rest[..n - step] + stale;
        assert view == Padded(m) + tail;
        StepAligned(n, |m|);
        WalkOverMessage(m, tail, n);
        TruncatedWalk(msgs[1..], n - step, stale);
      } else {
        AlignedFitsIff(|m|, n);
        if HEADER_SIZE <= n {
          FirstLength(m, rest, n, stale);
        }
        ShortWalk(view, n);
      }
    }
  }

  lemma ShortWalk(view: seq<Byte>, n: U32)
    requires n < HEADER_SIZE || n < U32At(view, 0)
    ensures WalkFrom(Cursor(view, n)) == Walk([], Cursor(view, n), false)
  {
    hide U32At;
  }

  lemma WalkOverMessage(m: seq<Byte>, tail: seq<Byte>, n: U32)
    requires Framed(m) && n % 4 == 0 && Align4(|m|) <= n
    ensures var w := WalkFrom(Cursor(Padded(m) + tail, n));
            var rest := WalkFrom(Cursor(tail, n - Align4(|m|)));
            && w.hangs == rest.hangs
            && Views(w.frames) == [Padded(m) + tail] + Views(rest.frames)
  {
    hide U32At, NlmsgAlign, Align4;
    var view := Padded(m) + tail;
    var c := Cursor(view, n);
    assert view == m + view[|m|..];
    ReadsInside(m, view[|m|..], 0);
    AlignFits(|m|, n);
    assert NlmsgNext(c) == Cursor(tail, n - Align4(|m|));
    var rest := WalkFrom(NlmsgNext(c));
    assert WalkFrom(c) == rest.(frames := [c] + rest.frames);
  }

  lemma StepAligned(n: nat, len: nat)
    requires n % 4 == 0
    ensures (n - Align4(len)) % 4 == 0
  {
  }

  lemma AlignedFitsIff(len: nat, n: nat)
    requires n % 4 == 0
    ensures Align4(len) <= n <==> len <= n
  {
  }

  lemma FirstLength(m: seq<Byte>, rest: seq<Byte>, n: nat, stale: seq<Byte>)
    requires Framed(m) && HEADER_SIZE <= n <= |Padded(m) + rest|
    ensures U32At((Padded(m) + rest)[..n] + stale, 0) == |m|
  {
    var view := (Padded(m) + rest)[..n] + stale;
    var head := m[..4];
    assert view == head + view[4..] && m == head + m[4..];
    ReadsInside(head, view[4..], 0);
    ReadsInside(head, m[4..], 0);
  }

  /** A packed datagram is walked back into exactly its messages. */
  lemma {:induction false} PackedWalk(msgs: seq<seq<Byte>>, stale: seq<Byte>)
    requires AllFramed(msgs) && |Pack(msgs)| < TWO_TO_THE_32
    ensures var w := WalkFrom(Cursor(Pack(msgs) + stale, |Pack(msgs)|));
            !w.hangs && ViewsOf(Views(w.frames), msgs)
  {
    var n := |Pack(msgs)|;
    assert Pack(msgs)[..n] == Pack(msgs);
    TruncatedWalk(msgs, n, stale);
    EverythingFits(msgs, n);
  }

  /** Both walks on arbitrary bytes: every attribute the inner walk visits ends
      no later than its message, which ends no later than the received bytes. */
  lemma {:induction false} DeliveredAttributesAreContained(c: Cursor, i: nat, fixedSize: nat)
    requires c.remaining % 4 == 0 && c.remaining <= |c.view| && i < |WalkFrom(c).frames|
    requires fixedSize % 4 == 0
    ensures var view := WalkFrom(c).frames[i].view;
            var len := U32At(view, 0);
            && len <= |view| && |c.view| - c.remaining <= |view| - len
            && forall a | a in Attrs(view, fixedSize) ::
                 Sits(view, len, a) && |view| - len <= |a.beyond|
  {
    hide U32At, WalkFrom, AttrWalk, Sits, ToInt32, Conserves;
    AlignedFrameIsInside(c, i);
    var f := WalkFrom(c).frames[i];
    var view, len := f.view, U32At(f.view, 0);
    var start, area := HEADER_SIZE + fixedSize, AttrLength(view, fixedSize);
    PositiveIntIsExact(len);
    if 0 < area {
      AttributesAreContained(From(view, start), area);
      forall a | a in Attrs(view, fixedSize)
        ensures Sits(view, len, a) && |view| - len <= |a.beyond|
      {
        SitsDeeper(view, start, len, a);
        SitsLeavesRoom(view, len, a);
      }
    } else {
      NoAttributes(From(view, start), area);
    }
  }

  lemma AlignedFrameIsInside(c: Cursor, i: nat)
    requires c.remaining % 4 == 0 && c.remaining <= |c.view| && i < |WalkFrom(c).frames|
    ensures Inside(c, WalkFrom(c).frames[i])
  {
    hide U32At, WalkFrom, Inside;
    AlignedWalkIsSafe(c);
  }

  lemma PositiveIntIsExact(n: U32)
    ensures 0 < ToInt32(n) ==> ToInt32(n) == n
  {
  }

  lemma SitsLeavesRoom(view: seq<Byte>, limit: int, a: Attribute)
    requires Sits(view, limit, a)
    ensures |view| - limit <= |a.beyond|
  {
    hide U16At;
  }

  lemma NoAttributes(view: seq<Byte>, attrLength: int)
    requires attrLength <= 0
    ensures AttrWalk(view, attrLength) == []
  {
  }

  /** A message as its sender describes it. */
  datatype Message = Message(msgType: U16, flags: U16, seqNo: U32, pid: U32,
                             fixed: seq<Byte>, attrs: seq<Attribute>) {
    function Size(): nat
      requires Encodable(attrs)
    {
      HEADER_SIZE + |fixed| + |EncodeAttrs(attrs)|
    }

    /** The fixed part keeps the alignment and the length fits a signed int. */
    predicate Valid() {
      Encodable(attrs) && |fixed| % 4 == 0 && Size() < 0x8000_0000
    }

    function Header(): Header
      requires Valid()
    {
      Wire.Header(Size(), msgType, flags, seqNo, pid)
    }

    function Encode(): (m: seq<Byte>)
      requires Valid()
      ensures |m| == Size()
    {
      EncodeHeader(Header()) + fixed + EncodeAttrs(attrs)
    }
  }

  /** What the receiver reads from a view: header, fixed part, attributes. */
  function Parse(view: seq<Byte>, fixedSize: nat): (Header, seq<Byte>, seq<Attribute>) {
    (HeaderAt(view), Slice(view, HEADER_SIZE, fixedSize), Bare(Attrs(view, fixedSize)))
  }

  lemma {:induction false} ParseEncoded(msg: Message, t: seq<Byte>)
    requires msg.Valid()
    ensures Framed(msg.Encode())
    ensures Parse(msg.Encode() + t, |msg.fixed|) == (msg.Header(), msg.fixed, msg.attrs)
  {
    hide U32At, U16At, Align4, Bare, AttrWalk, EncodeHeader, EncodeAttrs, HeaderAt;
    var h, body := EncodeHeader(msg.Header()), EncodeAttrs(msg.attrs);
    var view := msg.Encode() + t;
    assert view == h + (msg.fixed + body + t);
    HeaderRoundTrip(msg.Header(), msg.fixed + body + t);
    assert msg.Encode() == h + (msg.fixed + body);
    HeaderRoundTrip(msg.Header(), msg.fixed + body);
    LengthOfHeader(view);
    LengthOfHeader(msg.Encode());
    assert Slice(view, HEADER_SIZE, |msg.fixed|) == msg.fixed;
    assert From(view, HEADER_SIZE + |msg.fixed|) == body + t;
    assert AttrLength(view, |msg.fixed|) == |body|;
    AttrRoundTrip(msg.attrs, t);
  }

  lemma LengthOfHeader(view: seq<Byte>)
    ensures HeaderAt(view).len == U32At(view, 0)
  {
  }

  function EncodeAll(messages: seq<Message>): (msgs: seq<seq<Byte>>)
    requires forall x | x in messages :: x.Valid()
    ensures |msgs| == |messages|
    ensures forall i | 0 <= i < |messages| :: msgs[i] == messages[i].Encode()
  {
    seq(|messages|, i requires 0 <= i < |messages| => messages[i].Encode())
  }

  /** Both levels at once: pack any messages into a datagram, walk its frames,
      walk the attributes of each, and every header, fixed part and attribute
      comes back in order. */
  lemma {:induction false} TwoLevelRoundTrip(messages: seq<Message>, stale: seq<Byte>)
    requires forall x | x in messages :: x.Valid()
    requires |Pack(EncodeAll(messages))| < TWO_TO_THE_32
    ensures var datagram := Pack(EncodeAll(messages));
            var views := Views(WalkFrom(Cursor(datagram + stale, |datagram|)).frames);
            && |views| == |messages|
            && forall i | 0 <= i < |messages| ::
                 Parse(views[i], |messages[i].fixed|)
                 == (messages[i].Header(), messages[i].fixed, messages[i].attrs)
  {
    hide Parse, WalkFrom, Pack;
    var msgs := EncodeAll(messages);
    forall m | m in msgs
      ensures Framed(m)
    {
      var i :| 0 <= i < |msgs| && msgs[i] == m;
      ParseEncoded(messages[i], []);
    }
    PackedWalk(msgs, stale);
    var views := Views(WalkFrom(Cursor(Pack(msgs) + stale, |Pack(msgs)|)).frames);
    forall i | 0 <= i < |messages|
      ensures Parse(views[i], |messages[i].fixed|)
              == (messages[i].Header(), messages[i].fixed, messages[i].attrs)
    {
      var t := views[i][|msgs[i]|..];
      assert views[i] == messages[i].Encode() + t;
      ParseEncoded(messages[i], t);
    }
  }

  /** A datagram of a single message is walked as that message. */
  lemma OneMessageWalk(m: seq<Byte>, stale: seq<Byte>)
    requires Framed(m) && |m| % 4 == 0
    ensures var w := WalkFrom(Cursor(m + stale, |m|));
            !w.hangs && Views(w.frames) == [m + stale]
  {
    hide WalkFrom, U32At;
    assert Padded(m) == m;
    WalkOverMessage(m, stale, |m|);
    ShortWalk(stale, 0);
  }

  /** One encoded message comes back as one frame with the same parts. */
  lemma {:induction false} OneMessageRoundTrip(msg: Message, stale: seq<Byte>)
    requires msg.Valid()
    ensures var bytes := msg.Encode();
            var views := Views(WalkFrom(Cursor(bytes + stale, |bytes|)).frames);
            && |views| == 1
            && Parse(views[0], |msg.fixed|) == (msg.Header(), msg.fixed, msg.attrs)
  {
    hide WalkFrom, Parse;
    ParseEncoded(msg, stale);
    OneMessageWalk(msg.Encode(), stale);
  }
}
