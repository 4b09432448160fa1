/**
 * The storage-layer value types the chat list and its neighbours consume.
 * They belong to the Postbox and TelegramCore frameworks, whose source is not
 * part of this model: only the fields the core reads are kept, and the order
 * on message indices is a lexicographic stand-in with a proved maximum.
 */
module Postbox {
  import opened Wrappers

  type Int32 = x: int | -0x8000_0000 <= x <= 0x7FFF_FFFF
  type UInt32 = x: int | 0 <= x <= 0xFFFF_FFFF
  type Int64 = x: int | -0x8000_0000_0000_0000 <= x <= 0x7FFF_FFFF_FFFF_FFFF

  const Int32Max: Int32 := 0x7FFF_FFFF

  /** A peer (user, group, channel, secret chat) is a namespace and an id. */
  datatype PeerId = PeerId(namespace: Int32, id: Int32) {

    /** `toInt64()`: the namespace in the high word, the id's bit pattern in the low word. */
    function ToInt64(): Int64 {
      namespace * 0x1_0000_0000 + id % 0x1_0000_0000
    }
  }

  /** Distinct peers never share a 64-bit id. */
  lemma ToInt64Injective(a: PeerId, b: PeerId)
    ensures a.ToInt64() == b.ToInt64() <==> a == b
  {
    if a.ToInt64() == b.ToInt64() {
      var x := a.ToInt64();
      assert 0 <= a.id % 0x1_0000_0000 < 0x1_0000_0000;
      assert 0 <= b.id % 0x1_0000_0000 < 0x1_0000_0000;
      assert a.namespace == b.namespace;
      assert a.id % 0x1_0000_0000 == b.id % 0x1_0000_0000;
    }
  }

  datatype MessageId = MessageId(peerId: PeerId, namespace: Int32, id: Int32)

  /** Position of a message in a list: its id and its timestamp. */
  datatype MessageIndex = MessageIndex(id: MessageId, timestamp: Int32)

  /** The strict order on message indices: timestamp first, then the id. */
  predicate IndexLess(a: MessageIndex, b: MessageIndex) {
    if a.timestamp != b.timestamp then a.timestamp < b.timestamp
    else if a.id.namespace != b.id.namespace then a.id.namespace < b.id.namespace
    else if a.id.id != b.id.id then a.id.id < b.id.id
    else if a.id.peerId.namespace != b.id.peerId.namespace then a.id.peerId.namespace < b.id.peerId.namespace
    else a.id.peerId.id < b.id.peerId.id
  }

  /** `MessageIndex.absoluteUpperBound()`: every field at its largest value. */
  function AbsoluteUpperBound(): MessageIndex {
    MessageIndex(MessageId(PeerId(Int32Max, Int32Max), Int32Max, Int32Max), Int32Max)
  }

  /** `IndexLess` is a strict total order. */
  lemma IndexLessIsStrictTotalOrder(a: MessageIndex, b: MessageIndex, c: MessageIndex)
    ensures !IndexLess(a, a)
    ensures IndexLess(a, b) && IndexLess(b, c) ==> IndexLess(a, c)
    ensures a != b ==> IndexLess(a, b) || IndexLess(b, a)
    ensures IndexLess(a, b) ==> !IndexLess(b, a)
  {
  }

  /** Nothing sorts above the absolute upper bound, and everything else sorts below it. */
  lemma UpperBoundIsMaximal(a: MessageIndex)
    ensures !IndexLess(AbsoluteUpperBound(), a)
    ensures a != AbsoluteUpperBound() ==> IndexLess(a, AbsoluteUpperBound())
  {
  }

  /** A peer as the forward panel sees it: its id and its short display title. */
  datatype Peer = Peer(id: PeerId, compactDisplayTitle: string)

  /**
   * A stored message. `flags` is the raw value of the message flag set;
   * `containsSecretMedia` is the derived property TelegramCore computes from
   * the message's attributes.
   */
  datatype Message = Message(
    id: MessageId,
    timestamp: Int32,
    flags: UInt32,
    author: Option<Peer>,
    text: string,
    containsSecretMedia: bool)
  {
    /** `MessageIndex(message)`. */
    function Index(): MessageIndex {
      MessageIndex(id, timestamp)
    }
  }

  /** Read counters of a peer; only their equality matters to the core. */
  datatype CombinedPeerReadState = CombinedPeerReadState(unreadCount: Int32, markedUnread: bool)

  /** Mute and sound configuration of a peer; `isEqual(to:)` compares every field. */
  datatype PeerNotificationSettings = PeerNotificationSettings(muteUntil: Option<Int32>, sound: Int32) {
    predicate IsEqual(other: PeerNotificationSettings) {
      muteUntil == other.muteUntil && sound == other.sound
    }
  }

  /** A gap of not yet loaded chats, positioned by its index. */
  datatype ChatListHole = ChatListHole(index: MessageIndex)

  /** One record of a chat list view as the storage layer delivers it. */
  datatype ChatListEntry =
    | MessageEntry(message: Message, readState: Option<CombinedPeerReadState>, notificationSettings: Option<PeerNotificationSettings>)
    | HoleEntry(hole: ChatListHole)
    | Nothing(index: MessageIndex)

  /**
   * A window onto the chat list: its entries and the index of the next newer
   * entry outside the window, if there is one.
   */
  datatype ChatListView = ChatListView(entries: seq<ChatListEntry>, laterIndex: Option<MessageIndex>)
}
