/**
 The browser-use pipe server: length-prefixed frames decoded from whatever chunks the socket
 delivers, and the registry that gives browser tabs stable numbers.
 */
module BrowserPipe {
  import opened Sorting
  import opened Wrappers

  type Byte = n: int | 0 <= n < 256
  type Bytes = seq<Byte>

  const HEADER_BYTES: nat := 4
  const MAX_MESSAGE_BYTES: nat := 8 * 1024 * 1024

  datatype Endianness = LE | BE

  function ReadUInt32(e: Endianness, b: Bytes): (n: nat)
    requires |b| >= HEADER_BYTES
    ensures n < 0x1_0000_0000
  {
    var b0: int, b1: int, b2: int, b3: int := b[0], b[1], b[2], b[3];
    if e.LE? then b0 + 0x100 * b1 + 0x1_0000 * b2 + 0x100_0000 * b3
    else b3 + 0x100 * b2 + 0x1_0000 * b1 + 0x100_0000 * b0
  }

  function WriteUInt32(e: Endianness, n: nat): (b: Bytes)
    requires n < 0x1_0000_0000
    ensures |b| == HEADER_BYTES && ReadUInt32(e, b) == n
  {
    var n1 := n / 0x100;
    var n2 := n1 / 0x100;
    var b0: Byte, b1: Byte, b2: Byte, b3: Byte := n % 0x100, n1 % 0x100, n2 % 0x100, n2 / 0x100;
    if e.LE? then [b0, b1, b2, b3] else [b3, b2, b1, b0]
  }

  /** The header does not depend on what follows it. */
  lemma HeaderAppend(e: Endianness, a: Bytes, b: Bytes)
    requires |a| >= HEADER_BYTES
    ensures ReadUInt32(e, a + b) == ReadUInt32(e, a)
  {
  }

  /** Big-endian headers are ordered like their bytes, from the first on, and begin at 0. */
  lemma BigEndianOrder(a: Bytes, b: Bytes, i: nat)
    requires |a| == |b| == HEADER_BYTES && i < HEADER_BYTES && a[..i] == b[..i] && a[i] < b[i]
    ensures ReadUInt32(BE, a) < ReadUInt32(BE, b)
    ensures ReadUInt32(BE, [0, 0, 0, 0]) == 0 && ReadUInt32(BE, [255, 255, 255, 255]) == 0xFFFF_FFFF
  {
    assert forall k :: 0 <= k < i ==> a[..i][k] == a[k] && b[..i][k] == b[k];
    assert i > 0 ==> a[..i][0] == b[..i][0];
    assert i > 1 ==> a[..i][1] == b[..i][1];
    assert i > 2 ==> a[..i][2] == b[..i][2];
  }

  /** Little-endian headers are the big-endian ones read backwards. */
  lemma LittleEndianIsReversed(b: Bytes)
    requires |b| == HEADER_BYTES
    ensures ReadUInt32(LE, b) == ReadUInt32(BE, [b[3], b[2], b[1], b[0]])
  {
  }

  /** A frame; writing the header fails when the length does not fit. */
  function EncodeFrame(e: Endianness, payload: Bytes): Option<Bytes> {
    if |payload| < 0x1_0000_0000 then Some(WriteUInt32(e, |payload|) + payload) else None
  }

  datatype Decoded = Decoded(messages: seq<Bytes>, remaining: Bytes)

  function Prepend(messages: seq<Bytes>, d: Option<Decoded>): Option<Decoded> {
    match d
    case None => None
    case Some(d) => Some(Decoded(messages + d.messages, d.remaining))
  }

  lemma PrependNothing(d: Option<Decoded>)
    ensures Prepend([], d) == d
  {
    if d.Some? { assert [] + d.value.messages == d.value.messages; }
  }

  lemma PrependTwice(a: seq<Bytes>, b: seq<Bytes>, d: Option<Decoded>)
    ensures Prepend(a, Prepend(b, d)) == Prepend(a + b, d)
  {
    if d.Some? { assert a + (b + d.value.messages) == (a + b) + d.value.messages; }
  }

  /** The whole-stream decoding: all complete frames and what is left, or nothing after an oversized header. */
  function DecodeAll(e: Endianness, b: Bytes): Option<Decoded> {
    if |b| < HEADER_BYTES then Some(Decoded([], b))
    else
      var n := ReadUInt32(e, b);
      if n > MAX_MESSAGE_BYTES then None
      else if |b| < HEADER_BYTES + n then Some(Decoded([], b))
      else Prepend([b[HEADER_BYTES..HEADER_BYTES + n]], DecodeAll(e, b[HEADER_BYTES + n..]))
  }

  /** A header above eight mebibytes destroys the decoding; up to that, an unfinished frame waits for the rest. */
  lemma HeaderDecides(e: Endianness, n: nat, rest: Bytes)
    requires n < 0x1_0000_0000
    ensures var b := WriteUInt32(e, n) + rest;
      && (DecodeAll(e, b) == None <== n > 8_388_608)
      && (n <= 8_388_608 && |rest| < n ==> DecodeAll(e, b) == Some(Decoded([], b)))
  {
    hide ReadUInt32;
    HeaderAppend(e, WriteUInt32(e, n), rest);
  }

  method DecodeFrames(e: Endianness, buffer: Bytes) returns (decoded: Option<Decoded>)
    ensures decoded == DecodeAll(e, buffer)
  {
    hide ReadUInt32, Prepend;
    var offset := 0;
    var messages: seq<Bytes> := [];
    ghost var whole := DecodeAll(e, buffer);
    assert buffer[0..] == buffer;
    PrependNothing(whole);
    while |buffer| - offset >= HEADER_BYTES
      invariant 0 <= offset <= |buffer|
      invariant whole == Prepend(messages, DecodeAll(e, buffer[offset..]))
    {
      var rest := buffer[offset..];
      var messageLength := ReadUInt32(e, rest);
      if messageLength > MAX_MESSAGE_BYTES {
        PrependToNone(messages);
        return None;
      }
      var frameLength := HEADER_BYTES + messageLength;
      if |buffer| - offset < frameLength { break; }
      var payload := buffer[offset + HEADER_BYTES..offset + frameLength];
      assert rest[frameLength..] == buffer[offset + frameLength..] && rest[HEADER_BYTES..frameLength] == payload;
      PrependTwice(messages, [payload], DecodeAll(e, buffer[offset + frameLength..]));
      messages := messages + [payload];
      offset := offset + frameLength;
    }
    PrependToRest(messages, buffer[offset..]);
    decoded := Some(Decoded(messages, buffer[offset..]));
  }

  lemma PrependToNone(messages: seq<Bytes>)
    ensures Prepend(messages, None) == None
  {
  }

  lemma PrependToRest(messages: seq<Bytes>, rest: Bytes)
    ensures Prepend(messages, Some(Decoded([], rest))) == Some(Decoded(messages, rest))
  {
    assert messages + [] == messages;
  }

  /* ---------- Chunks against the whole stream ---------- */

  /** Decoding a prefix first and the rest after it gives the decoding of the whole. */
  lemma {:induction false} DecodeAppend(e: Endianness, a: Bytes, b: Bytes)
    ensures DecodeAll(e, a + b) == match DecodeAll(e, a)
      case None => None
      case Some(d) => Prepend(d.messages, DecodeAll(e, d.remaining + b))
  {
    hide ReadUInt32;
    if |a| >= HEADER_BYTES { HeaderAppend(e, a, b); }
    if |a| >= HEADER_BYTES && ReadUInt32(e, a) <= MAX_MESSAGE_BYTES && |a| >= HEADER_BYTES + ReadUInt32(e, a) {
      var k := HEADER_BYTES + ReadUInt32(e, a);
      DecodeAppend(e, a[k..], b);
      assert (a + b)[k..] == a[k..] + b;
      assert (a + b)[HEADER_BYTES..k] == a[HEADER_BYTES..k];
      if DecodeAll(e, a[k..]).Some? {
        var d := DecodeAll(e, a[k..]).value;
        PrependTwice([a[HEADER_BYTES..k]], d.messages, DecodeAll(e, d.remaining + b));
      }
    } else {
      PrependNothing(DecodeAll(e, a + b));
    }
  }

  /** What is left over is shorter than one maximal frame. */
  lemma {:induction false} RemainderIsShort(e: Endianness, b: Bytes)
    requires DecodeAll(e, b).Some?
    ensures |DecodeAll(e, b).value.remaining| < HEADER_BYTES + MAX_MESSAGE_BYTES
    ensures DecodeAll(e, DecodeAll(e, b).value.remaining) == Some(Decoded([], DecodeAll(e, b).value.remaining))
  {
    if |b| >= HEADER_BYTES && |b| >= HEADER_BYTES + ReadUInt32(e, b) {
      RemainderIsShort(e, b[HEADER_BYTES + ReadUInt32(e, b)..]);
    }
  }

  /** A connection: what it delivered, and the bytes it holds back while it is open. */
  datatype Connection = Open(delivered: seq<Bytes>, pending: Bytes) | Destroyed(delivered: seq<Bytes>)

  function OnData(e: Endianness, c: Connection, chunk: Bytes): Connection {
    match c
    case Destroyed(_) => c
    case Open(delivered, pending) =>
      match DecodeAll(e, pending + chunk)
      case None => Destroyed(delivered)
      case Some(d) => Open(delivered + d.messages, d.remaining)
  }

  function Feed(e: Endianness, chunks: seq<Bytes>): Connection {
    if chunks == [] then Open([], []) else OnData(e, Feed(e, chunks[..|chunks| - 1]), chunks[|chunks| - 1])
  }

  /** The messages of the complete frames in front of the first oversized header, if any. */
  function Deliverable(e: Endianness, b: Bytes): seq<Bytes> {
    if |b| < HEADER_BYTES then []
    else
      var n := ReadUInt32(e, b);
      if n > MAX_MESSAGE_BYTES || |b| < HEADER_BYTES + n then []
      else [b[HEADER_BYTES..HEADER_BYTES + n]] + Deliverable(e, b[HEADER_BYTES + n..])
  }

  lemma {:induction false} DeliverableAppend(e: Endianness, a: Bytes, b: Bytes)
    ensures Deliverable(e, a) <= Deliverable(e, a + b)
    ensures DecodeAll(e, a).Some? ==> DecodeAll(e, a).value.messages == Deliverable(e, a)
  {
    hide ReadUInt32;
    if |a| >= HEADER_BYTES { HeaderAppend(e, a, b); }
    if |a| >= HEADER_BYTES && ReadUInt32(e, a) <= MAX_MESSAGE_BYTES && |a| >= HEADER_BYTES + ReadUInt32(e, a) {
      var k := HEADER_BYTES + ReadUInt32(e, a);
      DeliverableAppend(e, a[k..], b);
      assert (a + b)[k..] == a[k..] + b;
      assert (a + b)[HEADER_BYTES..k] == a[HEADER_BYTES..k];
    }
  }

  /**
   For any chunking: the connection is destroyed exactly when the whole stream does not decode, and
   otherwise it has delivered and holds back exactly what whole-stream decoding gives. A destroyed
   connection has delivered a prefix of the frames before the oversized header.
   */
  lemma {:induction false} ChunkingAgreesWithStream(e: Endianness, chunks: seq<Bytes>)
    ensures Feed(e, chunks).Destroyed? <==> DecodeAll(e, Concat(chunks)).None?
    ensures Feed(e, chunks).Open? ==>
      DecodeAll(e, Concat(chunks)) == Some(Decoded(Feed(e, chunks).delivered, Feed(e, chunks).pending))
    ensures Feed(e, chunks).Open? ==> |Feed(e, chunks).pending| < HEADER_BYTES + MAX_MESSAGE_BYTES
    ensures Feed(e, chunks).delivered <= Deliverable(e, Concat(chunks))
  {
    if chunks != [] {
      var before, chunk := chunks[..|chunks| - 1], chunks[|chunks| - 1];
      ChunkingAgreesWithStream(e, before);
      DecodeAppend(e, Concat(before), chunk);
      DeliverableAppend(e, Concat(before), chunk);
      DeliverableAppend(e, Concat(chunks), []);
      assert Concat(chunks) + [] == Concat(chunks);
      if DecodeAll(e, Concat(chunks)).Some? { RemainderIsShort(e, Concat(chunks)); }
    }
  }

  function EncodeAll(e: Endianness, messages: seq<Bytes>): Bytes
    requires forall i :: 0 <= i < |messages| ==> |messages[i]| <= MAX_MESSAGE_BYTES
  {
    if messages == [] then [] else EncodeFrame(e, messages[0]).value + EncodeAll(e, messages[1..])
  }

  lemma {:induction false} DecodeEncode(e: Endianness, messages: seq<Bytes>)
    requires forall i :: 0 <= i < |messages| ==> |messages[i]| <= MAX_MESSAGE_BYTES
    ensures DecodeAll(e, EncodeAll(e, messages)) == Some(Decoded(messages, []))
  {
    hide ReadUInt32, WriteUInt32;
    if messages != [] {
      var m, rest := messages[0], EncodeAll(e, messages[1..]);
      DecodeEncode(e, messages[1..]);
      FrameInFront(e, m, rest);
      assert EncodeAll(e, messages) == WriteUInt32(e, |m|) + m + rest && [m] + messages[1..] == messages;
    }
  }

  lemma FrameInFront(e: Endianness, m: Bytes, rest: Bytes)
    requires |m| <= MAX_MESSAGE_BYTES
    ensures var b := WriteUInt32(e, |m|) + m + rest;
      && |b| >= HEADER_BYTES + |m| && ReadUInt32(e, b) == |m|
      && b[HEADER_BYTES..HEADER_BYTES + |m|] == m && b[HEADER_BYTES + |m|..] == rest
  {
    hide ReadUInt32;
    HeaderAppend(e, WriteUInt32(e, |m|), m + rest);
    assert WriteUInt32(e, |m|) + m + rest == WriteUInt32(e, |m|) + (m + rest);
  }

  /** However the encoded messages are split into chunks, they arrive exactly, in order, with nothing pending. */
  lemma MessagesSurviveAnyChunking(e: Endianness, messages: seq<Bytes>, chunks: seq<Bytes>)
    requires forall i :: 0 <= i < |messages| ==> |messages[i]| <= MAX_MESSAGE_BYTES
    requires Concat(chunks) == EncodeAll(e, messages)
    ensures Feed(e, chunks) == Open(messages, [])
  {
    DecodeEncode(e, messages);
    ChunkingAgreesWithStream(e, chunks);
  }

  /** Every chunking of the stream delivers the same messages. */
  ghost predicate ChunkingIsImmaterial(e: Endianness, b: Bytes) {
    forall chunks: seq<Bytes>, others: seq<Bytes> :: Concat(chunks) == b && Concat(others) == b ==>
      Feed(e, chunks).delivered == Feed(e, others).delivered
  }

  /**
   The chunking is immaterial exactly when no header is oversized, or nothing comes before the first
   oversized one: messages decoded from the same buffer as an oversized header are discarded with it.
   */
  lemma ChunkingIsImmaterialIff(e: Endianness, b: Bytes)
    ensures ChunkingIsImmaterial(e, b) <==> DecodeAll(e, b).Some? || Deliverable(e, b) == []
  {
    hide ReadUInt32, DecodeAll, Deliverable, Feed;
    if DecodeAll(e, b).Some? || Deliverable(e, b) == [] {
      forall chunks: seq<Bytes>, others: seq<Bytes> | Concat(chunks) == b && Concat(others) == b
        ensures Feed(e, chunks).delivered == Feed(e, others).delivered {
        ChunkingAgreesWithStream(e, chunks);
        ChunkingAgreesWithStream(e, others);
      }
    } else {
      var k := FirstFrame(e, b);
      FeedOne(e, b);
      FeedTwo(e, b[..k], b[k..]);
      assert b[..k] + b[k..] == b;
    }
  }

  /** The end of the first frame of a stream that has one in front of an oversized header. */
  lemma FirstFrame(e: Endianness, b: Bytes) returns (k: nat)
    requires DecodeAll(e, b).None? && Deliverable(e, b) != []
    ensures k <= |b| && DecodeAll(e, b[k..]).None?
    ensures DecodeAll(e, b[..k]).Some? && DecodeAll(e, b[..k]).value.messages != []
      && DecodeAll(e, b[..k]).value.remaining == []
  {
    hide ReadUInt32;
    k := HEADER_BYTES + ReadUInt32(e, b);
    var frame := b[..k];
    HeaderAppend(e, b[..HEADER_BYTES], b[HEADER_BYTES..]);
    HeaderAppend(e, b[..HEADER_BYTES], frame[HEADER_BYTES..]);
    assert b == b[..HEADER_BYTES] + b[HEADER_BYTES..] && frame == b[..HEADER_BYTES] + frame[HEADER_BYTES..];
    assert frame[k..] == [];
    assert DecodeAll(e, frame[k..]) == Some(Decoded([], []));
  }

  lemma FeedOne(e: Endianness, b: Bytes)
    ensures Concat([b]) == b
    ensures Feed(e, [b]) == match DecodeAll(e, b)
      case None => Destroyed([])
      case Some(d) => Open(d.messages, d.remaining)
  {
    hide DecodeAll;
    var none: seq<Bytes> := [];
    assert [b][..0] == none && Concat(none) == [] && Feed(e, none) == Open([], []);
    assert [] + b == b;
    assert none + (if DecodeAll(e, b).Some? then DecodeAll(e, b).value.messages else none)
      == if DecodeAll(e, b).Some? then DecodeAll(e, b).value.messages else none;
  }

  lemma FeedTwo(e: Endianness, a: Bytes, b: Bytes)
    requires DecodeAll(e, a).Some? && DecodeAll(e, a).value.remaining == [] && DecodeAll(e, b).None?
    ensures Concat([a, b]) == a + b
    ensures Feed(e, [a, b]) == Destroyed(DecodeAll(e, a).value.messages)
  {
    FeedOne(e, a);
    hide DecodeAll;
    assert [a, b][..1] == [a];
    assert [] + b == b;
  }

  /** An empty frame in front of an oversized header. */
  lemma OversizedStreamDependsOnChunking(e: Endianness)
    ensures !ChunkingIsImmaterial(e, [0, 0, 0, 0, 255, 255, 255, 255])
  {
    var b: Bytes := [0, 0, 0, 0, 255, 255, 255, 255];
    assert b[4..] == [255, 255, 255, 255];
    assert ReadUInt32(e, b) == 0 && ReadUInt32(e, b[4..]) == 0xFFFF_FFFF;
    hide ReadUInt32, ChunkingIsImmaterial;
    assert DecodeAll(e, b[4..]) == None;
    assert DecodeAll(e, b) == Prepend([b[4..4]], DecodeAll(e, b[4..]));
    assert Deliverable(e, b) != [];
    ChunkingIsImmaterialIff(e, b);
  }

  /* ---------- The server ---------- */

  class PipeServer<Socket(==)> {
    const endianness: Endianness
    var sockets: set<Socket>
    var pendingBySocket: map<Socket, Bytes>
    /** The messages handed on for each socket so far. */
    var delivered: map<Socket, seq<Bytes>>

    constructor (endianness: Endianness)
      ensures this.endianness == endianness && sockets == {} && pendingBySocket == map[] && delivered == map[]
    {
      this.endianness, sockets, pendingBySocket, delivered := endianness, {}, map[], map[];
    }

    /** The connection behind a socket; a socket without pending bytes starts afresh. */
    function ConnectionOf(socket: Socket): Connection
      reads this
    {
      Open(if socket in delivered then delivered[socket] else [],
           if socket in pendingBySocket then pendingBySocket[socket] else [])
    }

    method HandleSocketConnection(socket: Socket)
      modifies this
      ensures sockets == old(sockets) + {socket}
      ensures socket in pendingBySocket && ConnectionOf(socket) == Feed(endianness, [])
      ensures pendingBySocket - {socket} == old(pendingBySocket) - {socket}
        && delivered - {socket} == old(delivered) - {socket}
    {
      sockets := sockets + {socket};
      pendingBySocket := pendingBySocket[socket := []];
      delivered := delivered[socket := []];
    }

    /** An undecodable stream drops the pending bytes; the socket's close event then removes it. */
    method HandleSocketData(socket: Socket, chunk: Bytes)
      modifies this`pendingBySocket, this`delivered
      ensures pendingBySocket - {socket} == old(pendingBySocket) - {socket}
        && delivered - {socket} == old(delivered) - {socket}
      ensures socket in pendingBySocket <==> OnData(endianness, old(ConnectionOf(socket)), chunk).Open?
      ensures socket in pendingBySocket ==> ConnectionOf(socket) == OnData(endianness, old(ConnectionOf(socket)), chunk)
      ensures socket !in pendingBySocket ==> delivered == old(delivered)
    {
      var before := ConnectionOf(socket);
      var decoded := DecodeFrames(endianness, before.pending + chunk);
      if decoded.None? {
        pendingBySocket := pendingBySocket - {socket};
        return;
      }
      pendingBySocket := pendingBySocket[socket := decoded.value.remaining];
      delivered := delivered[socket := before.delivered + decoded.value.messages];
    }

    method HandleClose(socket: Socket)
      modifies this`sockets, this`pendingBySocket
      ensures sockets == old(sockets) - {socket} && pendingBySocket == old(pendingBySocket) - {socket}
    {
      sockets := sockets - {socket};
      pendingBySocket := pendingBySocket - {socket};
    }
  }

  /* ---------- Tab numbers ---------- */

  datatype Tab = Tab(id: nat, threadId: string, tabId: string)

  function TabKey(threadId: string, tabId: string): string {
    threadId + ":" + tabId
  }

  function KeyOf(tab: Tab): string {
    TabKey(tab.threadId, tab.tabId)
  }

  class TabRegistry {
    var trackedTabByKey: map<string, Tab>
    var trackedTabById: map<nat, Tab>
    var selectedTrackedTabIdBySessionId: map<string, nat>
    var nextTrackedTabId: nat

    constructor ()
      ensures Valid() && trackedTabById == map[] && selectedTrackedTabIdBySessionId == map[]
    {
      trackedTabByKey, trackedTabById, selectedTrackedTabIdBySessionId, nextTrackedTabId := map[], map[], map[], 1;
    }

    /** Keys and numbers are two names of the same tabs. */
    ghost predicate Valid()
      reads this
    {
      && nextTrackedTabId > 0
      && (forall k :: k in trackedTabByKey ==>
            k == KeyOf(trackedTabByKey[k]) && trackedTabByKey[k].id in trackedTabById
            && trackedTabById[trackedTabByKey[k].id] == trackedTabByKey[k])
      && (forall i :: i in trackedTabById ==>
            trackedTabById[i].id == i && 0 < i < nextTrackedTabId && KeyOf(trackedTabById[i]) in trackedTabByKey
            && trackedTabByKey[KeyOf(trackedTabById[i])] == trackedTabById[i])
    }

    /** No tab id seen so far holds a colon. */
    ghost predicate PlainTabIds()
      reads this
    {
      forall i :: i in trackedTabById ==> ':' !in trackedTabById[i].tabId
    }

    /** Numbers are never reused or moved, and a tab is given one number for ever. */
    method TrackTab(threadId: string, tabId: string) returns (tracked: Tab)
      requires Valid()
      modifies this`trackedTabByKey, this`trackedTabById, this`nextTrackedTabId
      ensures Valid()
      ensures forall i :: i in old(trackedTabById) ==>
        i in trackedTabById && trackedTabById[i] == old(trackedTabById)[i]
      ensures tracked.id in trackedTabById && trackedTabById[tracked.id] == tracked
      ensures trackedTabById.Keys <= old(trackedTabById).Keys + {tracked.id}
      ensures TabKey(tracked.threadId, tracked.tabId) == TabKey(threadId, tabId)
      ensures tracked.id in old(trackedTabById) <==> TabKey(threadId, tabId) in old(trackedTabByKey)
      ensures tracked.id !in old(trackedTabById) ==> tracked.threadId == threadId && tracked.tabId == tabId
      ensures old(PlainTabIds()) && ':' !in tabId ==>
        PlainTabIds() && tracked.threadId == threadId && tracked.tabId == tabId
    {
      var key := TabKey(threadId, tabId);
      if key in trackedTabByKey {
        tracked := trackedTabByKey[key];
        if PlainTabIds() && ':' !in tabId { TabKeyInjective(tracked.threadId, tracked.tabId, threadId, tabId); }
        return;
      }
      tracked := Tab(nextTrackedTabId, threadId, tabId);
      nextTrackedTabId := nextTrackedTabId + 1;
      trackedTabByKey := trackedTabByKey[key := tracked];
      trackedTabById := trackedTabById[tracked.id := tracked];
      assert KeyOf(tracked) == key;
    }

    /** The requested number wins over the session's selection; an unknown number is an error. */
    method ResolveTrackedTabForSession(sessionId: string, requested: Option<int>) returns (tab: Option<Tab>)
      requires Valid()
      ensures tab.Some? ==> tab.value.id in trackedTabById && trackedTabById[tab.value.id] == tab.value
      ensures requested.Some? ==>
        (tab.Some? <==> requested.value in trackedTabById) && (tab.Some? ==> tab.value.id == requested.value)
      ensures requested.None? && sessionId !in selectedTrackedTabIdBySessionId ==> tab.None?
      ensures requested.None? && sessionId in selectedTrackedTabIdBySessionId ==>
        var id := selectedTrackedTabIdBySessionId[sessionId];
        (tab.Some? <==> id in trackedTabById) && (tab.Some? ==> tab.value.id == id)
    {
      var trackedTabId := requested;
      if requested.None? && sessionId in selectedTrackedTabIdBySessionId {
        trackedTabId := Some(selectedTrackedTabIdBySessionId[sessionId]);
      }
      if trackedTabId.None? || trackedTabId.value !in trackedTabById { return None; }
      tab := Some(trackedTabById[trackedTabId.value]);
    }
  }

  /** The second tab's thread id takes the first one's on by a colon and `x`, which begins the first one's tab id. */
  predicate Overlaps(threadId: string, tabId: string, threadId': string, tabId': string, x: string) {
    threadId' == threadId + ":" + x && tabId == x + ":" + tabId'
  }

  ghost predicate Overlap(threadId: string, tabId: string, threadId': string, tabId': string) {
    exists x :: Overlaps(threadId, tabId, threadId', tabId', x)
  }

  /** Two tabs share a key exactly when they are the same or one thread id reaches into the other's tab id. */
  lemma TabKeysAgreeIff(threadId: string, tabId: string, threadId': string, tabId': string)
    ensures TabKey(threadId, tabId) == TabKey(threadId', tabId') <==>
      || (threadId == threadId' && tabId == tabId')
      || Overlap(threadId, tabId, threadId', tabId') || Overlap(threadId', tabId', threadId, tabId)
  {
    if TabKey(threadId, tabId) == TabKey(threadId', tabId') {
      if |threadId| <= |threadId'| {
        TabKeyPrefix(threadId, tabId, threadId', tabId');
      } else {
        TabKeyPrefix(threadId', tabId', threadId, tabId);
      }
    }
    forall x | Overlaps(threadId, tabId, threadId', tabId', x)
      ensures TabKey(threadId, tabId) == TabKey(threadId', tabId') {}
    forall x | Overlaps(threadId', tabId', threadId, tabId, x)
      ensures TabKey(threadId, tabId) == TabKey(threadId', tabId') {}
  }

  lemma TabKeyPrefix(threadId: string, tabId: string, threadId': string, tabId': string)
    requires TabKey(threadId, tabId) == TabKey(threadId', tabId') && |threadId| <= |threadId'|
    ensures (threadId == threadId' && tabId == tabId') || Overlap(threadId, tabId, threadId', tabId')
  {
    var key := TabKey(threadId, tabId);
    var m, n := |threadId|, |threadId'|;
    assert threadId == key[..m] && threadId' == key[..n] && tabId == key[m + 1..] && tabId' == key[n + 1..];
    assert key[m] == ':' && key[n] == ':';
    if m < n {
      var x := key[m + 1..n];
      assert threadId' == threadId + ":" + x && tabId == x + ":" + tabId';
      assert Overlaps(threadId, tabId, threadId', tabId', x);
    }
  }

  /** Tab ids without a colon, as generated identifiers are, make the key unambiguous whatever the thread ids hold. */
  lemma TabKeyInjective(threadId: string, tabId: string, threadId': string, tabId': string)
    requires ':' !in tabId && ':' !in tabId'
    requires TabKey(threadId, tabId) == TabKey(threadId', tabId')
    ensures threadId == threadId' && tabId == tabId'
  {
    TabKeysAgreeIff(threadId, tabId, threadId', tabId');
    OverlapNeedsColon(threadId, tabId, threadId', tabId');
    OverlapNeedsColon(threadId', tabId', threadId, tabId);
  }

  lemma OverlapNeedsColon(threadId: string, tabId: string, threadId': string, tabId': string)
    ensures Overlap(threadId, tabId, threadId', tabId') ==> ':' in tabId
  {
    forall x | Overlaps(threadId, tabId, threadId', tabId', x) ensures ':' in tabId {
      assert tabId[|x|] == ':';
    }
  }
}
