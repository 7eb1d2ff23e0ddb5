/**
 * The packet formats of network/post.cc and machine/network.cc: a mail header and
 * the message in a buffer, and a packet header and that buffer on the wire.
 */
module Packets {
  import opened Bytes

  const MAX_WIRE_SIZE := 64
  const HEADER_SIZE := 12
  const MAX_PACKET_SIZE := MAX_WIRE_SIZE - HEADER_SIZE
  const MAX_MAIL_SIZE := MAX_PACKET_SIZE - HEADER_SIZE
  const NUM_BOXES := 10

  /** PacketHeader and MailHeader have the same layout. */
  datatype Header = Header(to: int32, from: int32, length: word)

  /** A message as the mailboxes hold it; only the first mailHdr.length bytes of its data mean anything. */
  datatype Mail = Mail(pktHdr: Header, mailHdr: Header, data: seq<byte>)

  function EncodeHeader(h: Header): (s: seq<byte>)
    ensures |s| == HEADER_SIZE
  {
    EncodeInt(h.to) + EncodeInt(h.from) + EncodeWord(h.length)
  }

  function DecodeHeader(s: seq<byte>): (h: Header)
    requires |s| == HEADER_SIZE
  {
    Header(DecodeInt(s[..4]), DecodeInt(s[4..8]), DecodeWord(s[8..]))
  }

  lemma HeaderRoundTrip(h: Header)
    ensures DecodeHeader(EncodeHeader(h)) == h
  {
    hide EncodeInt, DecodeInt, EncodeWord, DecodeWord;
    var s := EncodeHeader(h);
    assert s[..4] == EncodeInt(h.to) && s[4..8] == EncodeInt(h.from) && s[8..] == EncodeWord(h.length);
    IntRoundTrip(h.to);
    IntRoundTrip(h.from);
    WordRoundTrip(h.length);
  }

  /** `bcopy` to the start of a buffer: the bytes behind the copy stay as they were. */
  function Overlay(buffer: seq<byte>, src: seq<byte>): (s: seq<byte>)
    requires |src| <= |buffer|
    ensures |s| == |buffer| && s[..|src|] == src
  {
    src + buffer[|src|..]
  }

  /** PostOffice::Send and Network::Send: the wire image of a message; both buffers are new and hold junk. */
  function WireOf(m: Mail, junk: seq<byte>, wireJunk: seq<byte>): (w: seq<byte>)
    requires |junk| == MAX_PACKET_SIZE && |wireJunk| == MAX_WIRE_SIZE
    requires |m.data| <= MAX_MAIL_SIZE && m.pktHdr.length == HEADER_SIZE + |m.data|
    ensures |w| == MAX_WIRE_SIZE
  {
    var buffer := Overlay(junk, EncodeHeader(m.mailHdr) + m.data);
    Overlay(wireJunk, EncodeHeader(m.pktHdr) + buffer[..m.pktHdr.length])
  }

  /** A header and the bytes behind it hold the message. */
  ghost predicate Carries(h: Header, payload: seq<byte>, m: Mail)
  {
    && h == m.pktHdr
    && h.length == HEADER_SIZE + |m.data| <= |payload|
    && m.mailHdr.length == |m.data| <= MAX_MAIL_SIZE
    && 0 <= m.mailHdr.to < NUM_BOXES
    && payload[..h.length] == EncodeHeader(m.mailHdr) + m.data
  }

  ghost predicate WireCarries(w: seq<byte>, m: Mail)
  {
    && |w| == MAX_WIRE_SIZE
    && DecodeHeader(w[..HEADER_SIZE]) == m.pktHdr
    && Carries(m.pktHdr, w[HEADER_SIZE..], m)
  }

  lemma WireHolds(m: Mail, junk: seq<byte>, wireJunk: seq<byte>)
    requires |junk| == MAX_PACKET_SIZE && |wireJunk| == MAX_WIRE_SIZE
    requires m.mailHdr.length == |m.data| <= MAX_MAIL_SIZE && m.pktHdr.length == HEADER_SIZE + |m.data|
    requires 0 <= m.mailHdr.to < NUM_BOXES
    ensures WireCarries(WireOf(m, junk, wireJunk), m)
  {
    hide EncodeHeader, DecodeHeader;
    var n, w := m.pktHdr.length, WireOf(m, junk, wireJunk);
    var payload := EncodeHeader(m.mailHdr) + m.data;
    assert Overlay(junk, payload)[..n] == payload;
    assert w[..HEADER_SIZE] == EncodeHeader(m.pktHdr);
    HeaderRoundTrip(m.pktHdr);
    assert w[HEADER_SIZE..][..n] == payload;
  }

  /** Copying the payload to another buffer, over whatever that held, keeps the message. */
  lemma CopyKeepsMail(h: Header, payload: seq<byte>, buffer: seq<byte>, m: Mail)
    requires Carries(h, payload, m) && h.length <= |buffer|
    ensures Carries(h, Overlay(buffer, payload[..h.length]), m)
  {
  }

  /** PostalDelivery takes out of its buffer exactly the message that the buffer carries. */
  lemma OpenedMail(h: Header, payload: seq<byte>, m: Mail)
    requires Carries(h, payload, m)
    ensures DecodeHeader(payload[..HEADER_SIZE]) == m.mailHdr
    ensures payload[HEADER_SIZE..HEADER_SIZE + m.mailHdr.length] == m.data
  {
    hide EncodeHeader, DecodeHeader;
    HeaderRoundTrip(m.mailHdr);
    assert payload[..h.length][..HEADER_SIZE] == payload[..HEADER_SIZE] == EncodeHeader(m.mailHdr);
    assert payload[..h.length][HEADER_SIZE..] == m.data;
  }
}

/** The messages for one mailbox, and subsequences. */
module MailLogs {
  import opened Packets

  ghost function For(b: int, ms: seq<Mail>): (r: seq<Mail>)
  {
    if ms == [] then []
    else For(b, ms[..|ms| - 1]) + if ms[|ms| - 1].mailHdr.to == b then [ms[|ms| - 1]] else []
  }

  lemma ForAppend(b: int, ms: seq<Mail>, m: Mail)
    ensures For(b, ms + [m]) == For(b, ms) + if m.mailHdr.to == b then [m] else []
  {
    assert (ms + [m])[..|ms|] == ms;
  }

  lemma {:induction false} ForHead(b: int, ms: seq<Mail>)
    requires ms != []
    ensures For(b, ms) == (if ms[0].mailHdr.to == b then [ms[0]] else []) + For(b, ms[1..])
  {
    var k := |ms| - 1;
    if k > 0 {
      ForHead(b, ms[..k]);
      assert ms[..k][1..] == ms[1..][..k - 1];
    }
  }

  /** a is b with some messages left out. */
  ghost predicate Subsequence(a: seq<Mail>, b: seq<Mail>)
  {
    a == [] ||
    (b != [] && (Subsequence(a, b[..|b| - 1]) ||
                 (a[|a| - 1] == b[|b| - 1] && Subsequence(a[..|a| - 1], b[..|b| - 1]))))
  }

  lemma SubsequenceGrows(a: seq<Mail>, b: seq<Mail>, m: Mail)
    requires Subsequence(a, b)
    ensures Subsequence(a, b + [m]) && Subsequence(a + [m], b + [m])
  {
    assert (b + [m])[..|b|] == b && (a + [m])[..|a|] == a;
  }

  lemma {:induction false} ForKeepsSubsequence(k: int, a: seq<Mail>, b: seq<Mail>)
    requires Subsequence(a, b)
    ensures Subsequence(For(k, a), For(k, b))
    decreases |b|
  {
    if a != [] {
      var b0, last := b[..|b| - 1], b[|b| - 1];
      assert For(k, b) == if last.mailHdr.to == k then For(k, b0) + [last] else For(k, b0);
      if Subsequence(a, b0) {
        ForKeepsSubsequence(k, a, b0);
        SubsequenceGrows(For(k, a), For(k, b0), last);
      } else {
        var a0 := a[..|a| - 1];
        assert For(k, a) == if last.mailHdr.to == k then For(k, a0) + [last] else For(k, a0);
        ForKeepsSubsequence(k, a0, b0);
        SubsequenceGrows(For(k, a0), For(k, b0), last);
      }
    }
  }

  lemma {:induction false} PrefixOfSubsequence(a: seq<Mail>, rest: seq<Mail>, b: seq<Mail>)
    requires Subsequence(a + rest, b)
    ensures Subsequence(a, b)
    decreases |b|
  {
    if a != [] && rest != [] {
      var b0, last := b[..|b| - 1], b[|b| - 1];
      if Subsequence(a + rest, b0) {
        PrefixOfSubsequence(a, rest, b0);
      } else {
        assert (a + rest)[..|a + rest| - 1] == a + rest[..|rest| - 1];
        PrefixOfSubsequence(a, rest[..|rest| - 1], b0);
      }
    } else {
      assert a + [] == a;
    }
  }

  /** Strictly increasing places in b at which the messages of a stand. */
  ghost predicate Places(a: seq<Mail>, b: seq<Mail>, at: seq<nat>)
  {
    && |at| == |a|
    && (forall i | 0 <= i < |a| :: at[i] < |b| && a[i] == b[at[i]])
    && (forall i, j | 0 <= i < j < |a| :: at[i] < at[j])
  }

  /** Distinct messages of a subsequence stand at distinct places, in the same order. */
  lemma {:induction false} SubsequencePlaces(a: seq<Mail>, b: seq<Mail>) returns (at: seq<nat>)
    requires Subsequence(a, b)
    ensures Places(a, b, at)
    decreases |b|
  {
    if a == [] {
      at := [];
    } else if Subsequence(a, b[..|b| - 1]) {
      at := SubsequencePlaces(a, b[..|b| - 1]);
    } else {
      at := SubsequencePlaces(a[..|a| - 1], b[..|b| - 1]);
      at := at + [|b| - 1];
    }
  }
}

/**
 * network/post.cc over machine/network.cc: any number of machines, each with a polled
 * network device, a postal worker and mailboxes, over links that keep order and lose packets.
 */
module PostOffices {
  import opened Bytes
  import opened Packets
  import opened MailLogs

  /** Where the postal worker stands in PostalDelivery. */
  datatype Worker =
    | AtP                     // messageAvailable->P()
    | AtReceive               // network->Receive(buffer)
    | AtPut(pktHdr: Header)   // open the buffer and put the mail into its mailbox

  datatype Node = Node(
    ident: int32,
    socket: seq<seq<byte>>,       // packets sent to this machine and not yet read
    inHdr: Header,
    inbox: seq<byte>,
    available: nat,               // the value of messageAvailable
    worker: Worker,
    buffer: seq<byte>,
    boxes: seq<seq<Mail>>,
    // what has happened so far
    posted: seq<Mail>,            // handed to Network::Send for this machine
    kept: seq<Mail>,              // those of them that the link did not lose
    transit: seq<Mail>,           // those of them not yet in a mailbox
    obtained: seq<seq<Mail>>)     // what PostOffice::Receive returned, box by box

  function NewNode(ident: int32, inbox: seq<byte>, buffer: seq<byte>): (n: Node)
    requires |inbox| == |buffer| == MAX_PACKET_SIZE
  {
    var none := seq(NUM_BOXES, i => []);
    Node(ident, [], Header(0, 0, 0), inbox, 0, AtP, buffer, none, [], [], [], none)
  }

  // ----- the steps of one machine -----

  datatype Action =
    | Arrive(m: Mail, lost: bool, junk: seq<byte>, wireJunk: seq<byte>)  // somebody sends to this machine
    | Poll                                                               // Network::CheckPktAvail
    | Work                                                               // the postal worker's next statement
    | Get(box: nat)                                                      // PostOffice::Receive

  /** The step can be taken: a sender's message is as PostOffice::Send makes it, and no P or Get has to wait. */
  ghost predicate Enabled(n: Node, x: Action)
  {
    match x
    case Arrive(m, lost, junk, wireJunk) =>
      && |junk| == MAX_PACKET_SIZE && |wireJunk| == MAX_WIRE_SIZE
      && m.mailHdr.length == |m.data| <= MAX_MAIL_SIZE && 0 <= m.mailHdr.to < NUM_BOXES
      && m.pktHdr.to == n.ident && m.pktHdr.length == HEADER_SIZE + |m.data|
    case Poll => true
    case Work => n.worker.AtP? ==> n.available > 0
    case Get(box) => box < |n.boxes| && n.boxes[box] != []
  }

  predicate PollReads(n: Node)
  {
    n.inHdr.length == 0 && n.socket != []
  }

  /** The assertions of the source, with the sizes that keep the copies inside their buffers. */
  predicate Asserts(n: Node, x: Action)
  {
    match x
    case Arrive(_, _, _, _) => true
    case Poll =>
      PollReads(n) ==>
        && |n.socket[0]| == MAX_WIRE_SIZE && |n.inbox| == MAX_PACKET_SIZE
        && var h := DecodeHeader(n.socket[0][..HEADER_SIZE]);
           h.to == n.ident && h.length <= MAX_PACKET_SIZE
    case Work =>
      |n.buffer| == MAX_PACKET_SIZE &&
      (match n.worker
       case AtP => true
       case AtReceive => n.inHdr.length <= |n.inbox| == MAX_PACKET_SIZE
       case AtPut(_) =>
         var h := DecodeHeader(n.buffer[..HEADER_SIZE]);
         0 <= h.to < NUM_BOXES == |n.boxes| && h.length <= MAX_MAIL_SIZE)
    case Get(box) => box < |n.boxes| == |n.obtained| == NUM_BOXES && n.boxes[box] != [] && n.boxes[box][0].mailHdr.length <= MAX_MAIL_SIZE
  }

  function Post(n: Node, m: Mail, lost: bool, wire: seq<byte>): (n': Node)
  {
    if lost then n.(posted := n.posted + [m])
    else n.(posted := n.posted + [m], kept := n.kept + [m], transit := n.transit + [m], socket := n.socket + [wire])
  }

  function CheckPktAvail(n: Node): (n': Node)
    requires Asserts(n, Poll)
  {
    if !PollReads(n) then n
    else
      var w := n.socket[0];
      var h := DecodeHeader(w[..HEADER_SIZE]);
      n.(socket := n.socket[1..], inHdr := h, available := n.available + 1,
      inbox := Overlay(n.inbox, w[HEADER_SIZE..HEADER_SIZE + h.length]))
  }

  /** PostalDelivery, one statement at a time; the mail leaves the history `transit` as it enters its box. */
  function WorkerStep(n: Node): (n': Node)
    requires Asserts(n, Work) && (n.worker.AtP? ==> n.available > 0)
  {
    match n.worker
    case AtP => n.(available := n.available - 1, worker := AtReceive)
    case AtReceive =>
      n.(worker := AtPut(n.inHdr), inHdr := n.inHdr.(length := 0),
      buffer := Overlay(n.buffer, n.inbox[..n.inHdr.length]))
    case AtPut(pktHdr) =>
      var h := DecodeHeader(n.buffer[..HEADER_SIZE]);
      var m := Mail(pktHdr, h, n.buffer[HEADER_SIZE..HEADER_SIZE + h.length]);
      n.(worker := AtP, boxes := n.boxes[h.to := n.boxes[h.to] + [m]],
      transit := if n.transit == [] then [] else n.transit[1..])
  }

  function TakeMail(n: Node, box: nat): (n': Node)
    requires Asserts(n, Get(box))
  {
    n.(boxes := n.boxes[box := n.boxes[box][1..]], obtained := n.obtained[box := n.obtained[box] + [n.boxes[box][0]]])
  }

  ghost function Next(n: Node, x: Action): (n': Node)
    requires Enabled(n, x) && Asserts(n, x)
  {
    match x
    case Arrive(m, lost, junk, wireJunk) => Post(n, m, lost, WireOf(m, junk, wireJunk))
    case Poll => CheckPktAvail(n)
    case Work => WorkerStep(n)
    case Get(box) => TakeMail(n, box)
  }

  // ----- the invariant -----

  /** How many messages the worker and the device hold. */
  function InHand(n: Node): (k: nat)
  {
    if n.worker.AtPut? then 1 else 0
  }

  function InDevice(n: Node): (k: nat)
  {
    if n.inHdr.length != 0 then 1 else 0
  }

  /** The bytes in the worker's buffer, in the device and in the socket are the messages in transit, in order. */
  ghost predicate Matches(n: Node)
  {
    && |n.transit| == InHand(n) + InDevice(n) + |n.socket|
    && (n.worker.AtPut? ==> Carries(n.worker.pktHdr, n.buffer, n.transit[0]))
    && (n.inHdr.length != 0 ==> Carries(n.inHdr, n.inbox, n.transit[InHand(n)]))
    && (forall k | 0 <= k < |n.socket| :: WireCarries(n.socket[k], n.transit[InHand(n) + InDevice(n) + k]))
    && (forall k | 0 <= k < |n.transit| :: n.transit[k].pktHdr.to == n.ident)
  }

  /** The semaphore counts the packet in the device, once. */
  ghost predicate Announced(n: Node)
  {
    n.available + (if n.worker.AtReceive? then 1 else 0) == InDevice(n)
  }

  /** Every message the link kept is with its receiver, in its mailbox or in transit, in this order. */
  ghost predicate Conserved(n: Node, b: nat)
    requires |n.boxes| == |n.obtained| == NUM_BOXES && b < NUM_BOXES
  {
    For(b, n.kept) == n.obtained[b] + n.boxes[b] + For(b, n.transit)
  }

  ghost predicate BoxesOk(n: Node)
  {
    forall b, k | 0 <= b < |n.boxes| && 0 <= k < |n.boxes[b]| :: n.boxes[b][k].mailHdr.length <= MAX_MAIL_SIZE
  }

  ghost predicate Valid(n: Node)
  {
    && |n.inbox| == |n.buffer| == MAX_PACKET_SIZE
    && |n.boxes| == |n.obtained| == NUM_BOXES
    && Matches(n) && Announced(n) && BoxesOk(n)
    && (forall b | 0 <= b < NUM_BOXES :: Conserved(n, b))
    && Subsequence(n.kept, n.posted)
  }

  lemma NewNodeIsValid(ident: int32, inbox: seq<byte>, buffer: seq<byte>)
    requires |inbox| == |buffer| == MAX_PACKET_SIZE
    ensures Valid(NewNode(ident, inbox, buffer))
  {
  }

  // ----- every step keeps it -----

  /** No assertion of the post office or of the network ever fails. */
  lemma AssertionsHold(n: Node, x: Action)
    requires Valid(n) && Enabled(n, x)
    ensures Asserts(n, x)
  {
    hide DecodeHeader, EncodeHeader, For, Subsequence;
    match x
    case Arrive(_, _, _, _) =>
    case Poll =>
      if PollReads(n) {
        assert WireCarries(n.socket[0], n.transit[InHand(n)]);
      }
    case Work =>
      if n.worker.AtPut? {
        OpenedMail(n.worker.pktHdr, n.buffer, n.transit[0]);
      }
    case Get(box) =>
  }

  /** The postal worker never receives an empty inbox. */
  lemma NeverEmpty(n: Node)
    requires Valid(n) && n.worker.AtReceive?
    ensures n.inHdr.length != 0
    ensures Carries(n.inHdr, n.inbox, n.transit[0])
  {
  }

  lemma PostKeepsValid(n: Node, m: Mail, lost: bool, junk: seq<byte>, wireJunk: seq<byte>)
    requires Valid(n) && Enabled(n, Arrive(m, lost, junk, wireJunk))
    ensures Valid(Post(n, m, lost, WireOf(m, junk, wireJunk)))
  {
    hide WireOf, DecodeHeader, EncodeHeader, For, Subsequence, Carries, WireCarries;
    var n' := Post(n, m, lost, WireOf(m, junk, wireJunk));
    WireHolds(m, junk, wireJunk);
    SubsequenceGrows(n.kept, n.posted, m);
    forall b | 0 <= b < NUM_BOXES
      ensures Conserved(n', b)
    {
      assert Conserved(n, b);
      ForAppend(b, n.kept, m);
      ForAppend(b, n.transit, m);
    }
  }

  lemma PollKeepsValid(n: Node)
    requires Valid(n) && Asserts(n, Poll)
    ensures Valid(CheckPktAvail(n))
  {
    hide DecodeHeader, EncodeHeader, For, Subsequence;
    if PollReads(n) {
      var n', w, m := CheckPktAvail(n), n.socket[0], n.transit[InHand(n)];
      assert WireCarries(w, m);
      CopyKeepsMail(m.pktHdr, w[HEADER_SIZE..], n.inbox, m);
      assert w[HEADER_SIZE..][..m.pktHdr.length] == w[HEADER_SIZE..HEADER_SIZE + m.pktHdr.length];
      forall b | 0 <= b < NUM_BOXES
        ensures Conserved(n', b)
      {
        assert Conserved(n, b);
      }
    }
  }

  /** A poll takes the oldest packet into an empty device and announces it; otherwise it does nothing. */
  lemma PollDelivers(n: Node)
    requires Valid(n) && Asserts(n, Poll)
    ensures var n' := CheckPktAvail(n);
            if n.inHdr.length == 0 && n.socket != [] then
              && n' == n.(socket := n.socket[1..], available := n.available + 1, inHdr := n'.inHdr, inbox := n'.inbox)
              && n'.inHdr == n.transit[InHand(n)].pktHdr && Carries(n'.inHdr, n'.inbox, n.transit[InHand(n)])
            else n' == n
  {
    hide DecodeHeader, EncodeHeader, For, Subsequence;
    if n.inHdr.length == 0 && n.socket != [] {
      var w, m := n.socket[0], n.transit[InHand(n)];
      assert WireCarries(w, m);
      CopyKeepsMail(m.pktHdr, w[HEADER_SIZE..], n.inbox, m);
      assert w[HEADER_SIZE..][..m.pktHdr.length] == w[HEADER_SIZE..HEADER_SIZE + m.pktHdr.length];
    }
  }

  lemma ReceiveKeepsValid(n: Node)
    requires Valid(n) && Asserts(n, Work) && n.worker != AtP && n.worker.AtReceive?
    ensures Valid(WorkerStep(n))
  {
    hide DecodeHeader, EncodeHeader, For, Subsequence;
    var n' := WorkerStep(n);
    NeverEmpty(n);
    CopyKeepsMail(n.inHdr, n.inbox, n.buffer, n.transit[0]);
    forall b | 0 <= b < NUM_BOXES
      ensures Conserved(n', b)
    {
      assert Conserved(n, b);
    }
  }

  lemma PassKeepsValid(n: Node)
    requires Valid(n) && Asserts(n, Work) && n.worker.AtP? && n.available > 0
    ensures Valid(WorkerStep(n))
  {
    hide DecodeHeader, EncodeHeader, For, Subsequence, Carries, WireCarries;
    var n' := WorkerStep(n);
    forall b | 0 <= b < NUM_BOXES
      ensures Conserved(n', b)
    {
      assert Conserved(n, b);
    }
  }

  /** The mail put into the box is the oldest in transit. */
  lemma PutDelivers(n: Node)
    requires Valid(n) && Asserts(n, Work) && n.worker.AtPut?
    ensures var m := n.transit[0];
            0 <= m.mailHdr.to < NUM_BOXES && m.mailHdr.length <= MAX_MAIL_SIZE
            && WorkerStep(n) == n.(worker := AtP, transit := n.transit[1..], boxes := n.boxes[m.mailHdr.to := n.boxes[m.mailHdr.to] + [m]])
  {
    hide DecodeHeader, EncodeHeader, For, Subsequence;
    OpenedMail(n.worker.pktHdr, n.buffer, n.transit[0]);
  }

  lemma PutKeepsValid(n: Node)
    requires Valid(n) && Asserts(n, Work) && n.worker.AtPut?
    ensures Valid(WorkerStep(n))
  {
    hide DecodeHeader, EncodeHeader, For, Subsequence, Carries, WireCarries;
    PutDelivers(n);
    var n', m := WorkerStep(n), n.transit[0];
    forall b | 0 <= b < NUM_BOXES
      ensures Conserved(n', b)
    {
      assert Conserved(n, b);
      ForHead(b, n.transit);
      assert (n.obtained[b] + n.boxes[b]) + ([m] + For(b, n'.transit)) == n.obtained[b] + (n.boxes[b] + [m]) + For(b, n'.transit);
    }
  }

  lemma GetKeepsValid(n: Node, box: nat)
    requires Valid(n) && Asserts(n, Get(box))
    ensures Valid(TakeMail(n, box))
  {
    hide DecodeHeader, EncodeHeader, For, Subsequence, Carries, WireCarries;
    var n' := TakeMail(n, box);
    assert n.boxes[box] == [n.boxes[box][0]] + n'.boxes[box];
    forall b | 0 <= b < NUM_BOXES
      ensures Conserved(n', b)
    {
      assert Conserved(n, b);
      assert n'.obtained[b] + n'.boxes[b] == n.obtained[b] + n.boxes[b];
    }
  }

  lemma NextKeepsValid(n: Node, x: Action)
    requires Valid(n) && Enabled(n, x)
    ensures Asserts(n, x) && Valid(Next(n, x))
    ensures Next(n, x).ident == n.ident
  {
    AssertionsHold(n, x);
    hide Valid;
    match x
    case Arrive(m, lost, junk, wireJunk) => PostKeepsValid(n, m, lost, junk, wireJunk);
    case Poll => PollKeepsValid(n);
    case Work =>
      match n.worker {
        case AtP => PassKeepsValid(n);
        case AtReceive => ReceiveKeepsValid(n);
        case AtPut(_) => PutKeepsValid(n);
      }
    case Get(box) => GetKeepsValid(n, box);
  }

  // ----- the whole network -----

  type World = map<int32, Node>

  datatype Event =
    | Send(from: int32, to: int32, mailHdr: Header, data: seq<byte>, lost: bool, junk: seq<byte>, wireJunk: seq<byte>)
    | Local(at: int32, x: Action)

  /** PostOffice::Send fills in the sender and the length of the packet. */
  function Stamped(from: int32, to: int32, mailHdr: Header, data: seq<byte>): (m: Mail)
    requires |data| <= MAX_MAIL_SIZE
  {
    Mail(Header(to, from, HEADER_SIZE + |data|), mailHdr, data)
  }

  /** The machine that an event changes, and how; the assertions of Send are those of its callers to keep. */
  ghost predicate Possible(w: World, e: Event)
  {
    match e
    case Send(from, to, mailHdr, data, lost, junk, wireJunk) =>
      && from in w && to in w && mailHdr.length == |data| <= MAX_MAIL_SIZE
      && Enabled(w[to], Arrive(Stamped(from, to, mailHdr, data), lost, junk, wireJunk))
    case Local(at, x) => at in w && !x.Arrive? && Enabled(w[at], x)
  }

  /** The assertion of Network::Send; its flag `sendBusy` is never set. */
  predicate SendAsserts(ident: int32, hdr: Header)
  {
    0 < hdr.length <= MAX_PACKET_SIZE && hdr.from == ident
  }

  /** The assertions that the event executes. */
  ghost predicate Holds(w: World, e: Event)
    requires Possible(w, e)
  {
    match e
    case Send(from, to, mailHdr, data, _, _, _) => SendAsserts(w[from].ident, Stamped(from, to, mailHdr, data).pktHdr)
    case Local(at, x) => Asserts(w[at], x)
  }

  ghost function After(w: World, e: Event): (w': World)
    requires Possible(w, e) && Holds(w, e)
  {
    match e
    case Send(from, to, mailHdr, data, lost, junk, wireJunk) =>
      w[to := Next(w[to], Arrive(Stamped(from, to, mailHdr, data), lost, junk, wireJunk))]
    case Local(at, x) => w[at := Next(w[at], x)]
  }

  ghost predicate AllValid(w: World)
  {
    forall a | a in w :: Valid(w[a]) && w[a].ident == a
  }

  lemma AfterKeepsValid(w: World, e: Event)
    requires AllValid(w) && Possible(w, e)
    ensures Holds(w, e) && AllValid(After(w, e))
  {
    hide Valid, Next, Enabled, Asserts;
    match e
    case Send(from, to, mailHdr, data, lost, junk, wireJunk) =>
      NextKeepsValid(w[to], Arrive(Stamped(from, to, mailHdr, data), lost, junk, wireJunk));
    case Local(at, x) =>
      NextKeepsValid(w[at], x);
  }

  ghost predicate IsStart(w: World)
  {
    forall a | a in w :: Fresh(w[a], a)
  }

  ghost predicate Fresh(n: Node, a: int32)
  {
    |n.inbox| == |n.buffer| == MAX_PACKET_SIZE && n == NewNode(a, n.inbox, n.buffer)
  }

  ghost predicate IsRun(ws: seq<World>, es: seq<Event>)
  {
    && |ws| == |es| + 1
    && IsStart(ws[0])
    && forall i | 0 <= i < |es| :: Possible(ws[i], es[i]) && (Holds(ws[i], es[i]) ==> ws[i + 1] == After(ws[i], es[i]))
  }

  lemma {:induction false} RunKeepsValid(ws: seq<World>, es: seq<Event>, i: nat)
    requires IsRun(ws, es) && i < |ws|
    ensures AllValid(ws[i])
  {
    hide Valid, NewNode;
    if i == 0 {
      forall a | a in ws[0]
        ensures Valid(ws[0][a]) && ws[0][a].ident == a
      {
        assert Fresh(ws[0][a], a);
        NewNodeIsValid(a, ws[0][a].inbox, ws[0][a].buffer);
        assert NewNode(a, ws[0][a].inbox, ws[0][a].buffer).ident == a by { FreshIdent(a, ws[0][a].inbox, ws[0][a].buffer); }
      }
    } else {
      RunKeepsValid(ws, es, i - 1);
      AfterKeepsValid(ws[i - 1], es[i - 1]);
    }
  }

  lemma FreshIdent(a: int32, inbox: seq<byte>, buffer: seq<byte>)
    requires |inbox| == |buffer| == MAX_PACKET_SIZE
    ensures NewNode(a, inbox, buffer).ident == a
  {
  }

  /** In every run of every network no assertion of any machine fails. */
  lemma RunIsSafe(ws: seq<World>, es: seq<Event>, i: nat)
    requires IsRun(ws, es) && i < |es|
    ensures Holds(ws[i], es[i])
  {
    RunKeepsValid(ws, es, i);
    AfterKeepsValid(ws[i], es[i]);
  }

  /** The message, if any, with which Send is called for machine a. */
  ghost function Called(e: Event, a: int32): (ms: seq<Mail>)
  {
    match e
    case Send(from, to, mailHdr, data, _, _, _) =>
      if to == a && |data| <= MAX_MAIL_SIZE then [Mail(Header(to, from, 12 + |data|), mailHdr, data)] else []
    case Local(_, _) => []
  }

  /** The messages with which Send was called for machine a, before step i. */
  ghost function SentTo(es: seq<Event>, i: nat, a: int32): (ms: seq<Mail>)
    requires i <= |es|
  {
    if i == 0 then [] else SentTo(es, i - 1, a) + Called(es[i - 1], a)
  }

  /** Those of them that the link did not lose. */
  ghost function KeptFor(es: seq<Event>, i: nat, a: int32): (ms: seq<Mail>)
    requires i <= |es|
  {
    if i == 0 then []
    else KeptFor(es, i - 1, a) + if es[i - 1].Send? && es[i - 1].lost then [] else Called(es[i - 1], a)
  }

  lemma LocalKeepsLogs(n: Node, x: Action)
    requires Enabled(n, x) && Asserts(n, x) && !x.Arrive?
    ensures Next(n, x).posted == n.posted && Next(n, x).kept == n.kept
  {
  }

  lemma LogStep(w: World, e: Event, a: int32)
    requires Possible(w, e) && Holds(w, e) && a in w
    ensures var w' := After(w, e);
            && a in w' && w'[a].posted == w[a].posted + Called(e, a)
            && w'[a].kept == w[a].kept + if e.Send? && e.lost then [] else Called(e, a)
  {
    hide WireOf;
    if e.Local? {
      LocalKeepsLogs(w[e.at], e.x);
    }
  }

  lemma {:induction false} LogsAreSends(ws: seq<World>, es: seq<Event>, i: nat, a: int32)
    requires IsRun(ws, es) && i < |ws| && a in ws[0]
    ensures a in ws[i] && ws[i][a].posted == SentTo(es, i, a) && ws[i][a].kept == KeptFor(es, i, a)
  {
    hide Possible, Holds, After, Called;
    if i == 0 {
      assert Fresh(ws[0][a], a);
    } else {
      LogsAreSends(ws, es, i - 1, a);
      RunIsSafe(ws, es, i - 1);
      LogStep(ws[i - 1], es[i - 1], a);
    }
  }

  lemma {:induction false} SameMachines(ws: seq<World>, es: seq<Event>, i: nat)
    requires IsRun(ws, es) && i < |ws|
    ensures ws[i].Keys == ws[0].Keys
  {
    if i > 0 {
      SameMachines(ws, es, i - 1);
      RunIsSafe(ws, es, i - 1);
    }
  }

  /**
   * In every run, what was obtained from a mailbox is an in-order, uncorrupted selection, without
   * duplicates, of what Send was called with for that mailbox.
   */
  lemma MailArrivesInOrder(ws: seq<World>, es: seq<Event>, i: nat, a: int32, b: nat) returns (at: seq<nat>)
    requires IsRun(ws, es) && i < |ws| && a in ws[i] && b < NUM_BOXES
    ensures |ws[i][a].obtained| == NUM_BOXES
    ensures Places(ws[i][a].obtained[b], For(b, SentTo(es, i, a)), at)
  {
    RunKeepsValid(ws, es, i);
    SameMachines(ws, es, i);
    LogsAreSends(ws, es, i, a);
    var n := ws[i][a];
    assert Valid(n);
    assert Conserved(n, b);
    hide IsRun, SentTo;
    ForKeepsSubsequence(b, n.kept, n.posted);
    var rest := n.boxes[b] + For(b, n.transit);
    assert n.obtained[b] + rest == For(b, n.kept);
    PrefixOfSubsequence(n.obtained[b], rest, For(b, n.posted));
    at := SubsequencePlaces(n.obtained[b], For(b, n.posted));
  }

  /** What the link did not lose is not lost later: it is obtained, in its mailbox or still on its way, byte for byte. */
  lemma NothingElseLost(ws: seq<World>, es: seq<Event>, i: nat, a: int32, b: nat)
    requires IsRun(ws, es) && i < |ws| && a in ws[i] && b < NUM_BOXES
    ensures |ws[i][a].boxes| == |ws[i][a].obtained| == NUM_BOXES && Matches(ws[i][a])
    ensures For(b, KeptFor(es, i, a)) == ws[i][a].obtained[b] + ws[i][a].boxes[b] + For(b, ws[i][a].transit)
  {
    RunKeepsValid(ws, es, i);
    SameMachines(ws, es, i);
    LogsAreSends(ws, es, i, a);
    assert Valid(ws[i][a]);
    assert Conserved(ws[i][a], b);
  }
}
