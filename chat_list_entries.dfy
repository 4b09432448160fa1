/**
 * The chat list's entry model: the identity of a row (`ChatListNodeEntryId`),
 * the four kinds of row (`ChatListNodeEntry`) with their sort key, stable id
 * and equality, and the projection of a storage view onto the list of rows.
 */
module ChatListNodeEntries {
  import opened Wrappers
  import Postbox

  /** The identity of a row, used by the list to match rows across updates. */
  datatype ChatListNodeEntryId = Search | Hole(holeId: Postbox.Int64) | PeerId(peerId: Postbox.Int64)

  /** `hashValue`: `Int64.hashValue` is the value itself on a 64-bit platform, and `Search` hashes to 0. */
  function HashValue(id: ChatListNodeEntryId): (r: int)
    ensures -0x8000_0000_0000_0000 <= r <= 0x7FFF_FFFF_FFFF_FFFF
  {
    match id
    case Search => 0
    case Hole(n) => n
    case PeerId(n) => n
  }

  /** The hand-written `==` on row ids. */
  predicate IdEqual(a: ChatListNodeEntryId, b: ChatListNodeEntryId)
    ensures IdEqual(a, b) <==> a == b
  {
    match a
    case Search => (match b case Search => true case _ => false)
    case Hole(lhsId) => (match b case Hole(rhsId) => lhsId == rhsId case _ => false)
    case PeerId(lhsId) => (match b case PeerId(rhsId) => lhsId == rhsId case _ => false)
  }

  /** The hand-written `<` on row ids: it compares hash values only. */
  predicate IdLess(a: ChatListNodeEntryId, b: ChatListNodeEntryId)
    ensures IdLess(a, b) ==> !IdEqual(a, b) && !(HashValue(b) < HashValue(a))
  {
    HashValue(a) < HashValue(b)
  }

  /** Equal ids hash alike, as `Hashable` requires. */
  lemma IdEqualImpliesEqualHash(a: ChatListNodeEntryId, b: ChatListNodeEntryId)
    requires IdEqual(a, b)
    ensures HashValue(a) == HashValue(b)
  {
  }

  /**
   * `<` is a strict weak order whose incomparable pairs are exactly the pairs
   * with equal hashes; a hole and a peer with the same number are unequal and
   * yet neither is below the other, and likewise `Search` and id 0.
   */
  lemma IdLessIgnoresVariant(n: Postbox.Int64, a: ChatListNodeEntryId, b: ChatListNodeEntryId, c: ChatListNodeEntryId)
    ensures !IdEqual(Hole(n), PeerId(n)) && !IdLess(Hole(n), PeerId(n)) && !IdLess(PeerId(n), Hole(n))
    ensures !IdEqual(Search, Hole(0)) && !IdLess(Search, Hole(0)) && !IdLess(Hole(0), Search)
    ensures !IdLess(a, a)
    ensures IdLess(a, b) && IdLess(b, c) ==> IdLess(a, c)
    ensures !IdLess(a, b) && !IdLess(b, a) <==> HashValue(a) == HashValue(b)
  {
  }

  /** One row of the chat list. */
  datatype ChatListNodeEntry =
    | SearchEntry
    | MessageEntry(message: Postbox.Message, readState: Option<Postbox.CombinedPeerReadState>, notificationSettings: Option<Postbox.PeerNotificationSettings>)
    | HoleEntry(hole: Postbox.ChatListHole)
    | Nothing(index: Postbox.MessageIndex)
  {
    /** `index`: the sort key. The search row sits at the absolute upper bound. */
    function Index(): (r: Postbox.MessageIndex)
      ensures this.SearchEntry? || this.MessageEntry? || this.Nothing? ==> this.StableId() == (if this.SearchEntry? then Search else PeerId(r.id.peerId.ToInt64()))
      ensures this.HoleEntry? ==> this.StableId() == Hole(r.id.id)
    {
      match this
      case SearchEntry => Postbox.AbsoluteUpperBound()
      case MessageEntry(message, _, _) => message.Index()
      case HoleEntry(hole) => hole.index
      case Nothing(index) => index
    }

    /**
     * `stableId`: a message row and a "nothing" row are identified by their
     * peer, so they share an id when they are about the same chat; a hole is
     * identified by the message id of its index.
     */
    function StableId(): (r: ChatListNodeEntryId)
      ensures r.Search? <==> this.SearchEntry?
      ensures r.Hole? <==> this.HoleEntry?
    {
      match this
      case SearchEntry => Search
      case MessageEntry(message, _, _) => PeerId(message.id.peerId.ToInt64())
      case HoleEntry(hole) => Hole(hole.index.id.id)
      case Nothing(index) => PeerId(index.id.peerId.ToInt64())
    }
  }

  /** Both entries are of the same kind. */
  predicate SameVariant(a: ChatListNodeEntry, b: ChatListNodeEntry) {
    && (a.SearchEntry? <==> b.SearchEntry?)
    && (a.MessageEntry? <==> b.MessageEntry?)
    && (a.HoleEntry? <==> b.HoleEntry?)
    && (a.Nothing? <==> b.Nothing?)
  }

  /** The notification-settings part of message-row equality. */
  predicate SettingsMatch(a: Option<Postbox.PeerNotificationSettings>, b: Option<Postbox.PeerNotificationSettings>) {
    if a.Some? && b.Some? then a.value.IsEqual(b.value)
    else a.Some? == b.Some?
  }

  /**
   * The hand-written `==` on rows. Message rows compare the message id, the
   * message flags and the read state, and the notification settings only by
   * `isEqual` when both are present; other rows compare their payload.
   */
  predicate EntryEqual(a: ChatListNodeEntry, b: ChatListNodeEntry)
    ensures EntryEqual(a, b) ==> SameVariant(a, b)
    ensures EntryEqual(a, b) ==> a.StableId() == b.StableId()
  {
    match a
    case SearchEntry => b.SearchEntry?
    case MessageEntry(lhsMessage, lhsReadState, lhsSettings) =>
      (match b
       case MessageEntry(rhsMessage, rhsReadState, rhsSettings) =>
         if lhsMessage.id != rhsMessage.id || lhsMessage.flags != rhsMessage.flags || lhsReadState != rhsReadState then false
         else SettingsMatch(lhsSettings, rhsSettings)
       case _ => false)
    case HoleEntry(lhsHole) => (match b case HoleEntry(rhsHole) => lhsHole == rhsHole case _ => false)
    case Nothing(lhsIndex) => (match b case Nothing(rhsIndex) => lhsIndex == rhsIndex case _ => false)
  }

  /** The hand-written `<` on rows: the order of their sort keys. */
  predicate EntryLess(a: ChatListNodeEntry, b: ChatListNodeEntry)
    ensures EntryLess(a, b) ==> !Postbox.IndexLess(b.Index(), a.Index()) && a.Index() != b.Index()
    ensures a.SearchEntry? ==> !EntryLess(a, b)
  {
    Postbox.IndexLessIsStrictTotalOrder(a.Index(), b.Index(), a.Index());
    Postbox.UpperBoundIsMaximal(b.Index());
    Postbox.IndexLess(a.Index(), b.Index())
  }

  /** Row equality is an equivalence relation. */
  lemma EntryEqualIsEquivalence(a: ChatListNodeEntry, b: ChatListNodeEntry, c: ChatListNodeEntry)
    ensures EntryEqual(a, a)
    ensures EntryEqual(a, b) ==> EntryEqual(b, a)
    ensures EntryEqual(a, b) && EntryEqual(b, c) ==> EntryEqual(a, c)
  {
  }

  /**
   * Two message rows are equal exactly when message id, flags and read state
   * agree and the notification settings are both absent or both present and
   * equal; a message row never equals a row of another kind.
   */
  lemma MessageEntryEquality(a: ChatListNodeEntry, b: ChatListNodeEntry)
    requires a.MessageEntry?
    ensures b.MessageEntry? ==>
      (EntryEqual(a, b) <==>
        && a.message.id == b.message.id
        && a.message.flags == b.message.flags
        && a.readState == b.readState
        && SettingsMatch(a.notificationSettings, b.notificationSettings))
    ensures b.MessageEntry? && a.notificationSettings.Some? != b.notificationSettings.Some? ==> !EntryEqual(a, b)
    ensures !b.MessageEntry? ==> !EntryEqual(a, b)
  {
  }

  /** The search row, holes and "nothing" rows compare by payload. */
  lemma PayloadEntryEquality(a: ChatListNodeEntry, b: ChatListNodeEntry)
    requires !a.MessageEntry?
    ensures EntryEqual(a, b) <==> a == b
  {
  }

  /** Equality looks past the message body: a row whose text or timestamp changed can still compare equal. */
  lemma MessageRowIgnoresContent(m: Postbox.Message, text: string, timestamp: Postbox.Int32)
    ensures EntryEqual(MessageEntry(m, None, None), MessageEntry(m.(text := text, timestamp := timestamp), None, None))
  {
  }

  /** A message row and a "nothing" row of the same chat collide on their stable id. */
  lemma MessageAndNothingShareId(m: Postbox.Message)
    ensures MessageEntry(m, None, None).StableId() == Nothing(m.Index()).StableId()
    ensures !EntryEqual(MessageEntry(m, None, None), Nothing(m.Index()))
  {
  }

  /** No row sorts above the search row, and every row with a smaller key sorts below it. */
  lemma SearchEntryIsTop(e: ChatListNodeEntry)
    ensures !EntryLess(SearchEntry, e)
    ensures e.Index() != Postbox.AbsoluteUpperBound() ==> EntryLess(e, SearchEntry)
  {
    Postbox.UpperBoundIsMaximal(e.Index());
  }

  /** The row for one view record: same kind, same payload. */
  function ProjectEntry(e: Postbox.ChatListEntry): (r: ChatListNodeEntry)
    ensures !r.SearchEntry?
  {
    match e
    case MessageEntry(message, readState, settings) => MessageEntry(message, readState, settings)
    case HoleEntry(hole) => HoleEntry(hole)
    case Nothing(index) => Nothing(index)
  }

  /** The view record a row came from; the search row has none. */
  function SourceRecord(n: ChatListNodeEntry): Option<Postbox.ChatListEntry> {
    match n
    case SearchEntry => None
    case MessageEntry(message, readState, settings) => Some(Postbox.MessageEntry(message, readState, settings))
    case HoleEntry(hole) => Some(Postbox.HoleEntry(hole))
    case Nothing(index) => Some(Postbox.Nothing(index))
  }

  /** Projection loses nothing: every record can be read back from its row. */
  lemma ProjectEntryRoundTrip(e: Postbox.ChatListEntry)
    ensures SourceRecord(ProjectEntry(e)) == Some(e)
  {
  }

  /** The rows of a sequence of records, one each, in order. */
  function ProjectAll(es: seq<Postbox.ChatListEntry>): (r: seq<ChatListNodeEntry>)
    ensures |r| == |es|
    ensures forall i :: 0 <= i < |es| ==> r[i] == ProjectEntry(es[i])
  {
    if es == [] then [] else ProjectAll(es[..|es| - 1]) + [ProjectEntry(es[|es| - 1])]
  }

  /** What `chatListNodeEntriesForView` returns: the rows, then the search row when nothing newer exists. */
  function EntriesForView(view: Postbox.ChatListView): seq<ChatListNodeEntry> {
    ProjectAll(view.entries) + (if view.laterIndex.None? then [SearchEntry] else [])
  }

  /** `chatListNodeEntriesForView`: append one row per record, then the search row at the top of the list. */
  method ChatListNodeEntriesForView(view: Postbox.ChatListView) returns (result: seq<ChatListNodeEntry>)
    ensures result == EntriesForView(view)
  {
    result := [];
    for i := 0 to |view.entries|
      invariant result == ProjectAll(view.entries[..i])
    {
      assert view.entries[..i + 1][..i] == view.entries[..i];
      result := result + [ProjectEntry(view.entries[i])];
    }
    assert view.entries[..|view.entries|] == view.entries;
    if view.laterIndex.None? {
      result := result + [SearchEntry];
    }
  }

  /** Number of search rows in a list. */
  function CountSearch(s: seq<ChatListNodeEntry>): nat {
    if s == [] then 0 else CountSearch(s[..|s| - 1]) + (if s[|s| - 1].SearchEntry? then 1 else 0)
  }

  lemma {:induction false} NoSearchRows(s: seq<ChatListNodeEntry>)
    requires forall i :: 0 <= i < |s| ==> !s[i].SearchEntry?
    ensures CountSearch(s) == 0
  {
    if s != [] {
      NoSearchRows(s[..|s| - 1]);
    }
  }

  /**
   * The projection keeps every record, in order, as a row of the same kind,
   * and adds exactly one search row, as the last row, iff `laterIndex` is nil.
   */
  lemma ProjectionShape(view: Postbox.ChatListView)
    ensures |EntriesForView(view)| == |view.entries| + (if view.laterIndex.None? then 1 else 0)
    ensures forall i :: 0 <= i < |view.entries| ==> SourceRecord(EntriesForView(view)[i]) == Some(view.entries[i])
    ensures CountSearch(EntriesForView(view)) == (if view.laterIndex.None? then 1 else 0)
    ensures view.laterIndex.None? ==> EntriesForView(view)[|view.entries|] == SearchEntry
    ensures view.entries == [] ==> EntriesForView(view) == (if view.laterIndex.None? then [SearchEntry] else [])
  {
    var rows := ProjectAll(view.entries);
    NoSearchRows(rows);
    forall i | 0 <= i < |view.entries|
      ensures SourceRecord(EntriesForView(view)[i]) == Some(view.entries[i])
    {
      ProjectEntryRoundTrip(view.entries[i]);
    }
    if view.laterIndex.None? {
      var all := rows + [SearchEntry];
      assert all[..|all| - 1] == rows;
    } else {
      assert rows + [] == rows;
    }
  }

  /** Stable id of the row a record becomes. */
  function RecordStableId(e: Postbox.ChatListEntry): ChatListNodeEntryId {
    ProjectEntry(e).StableId()
  }

  predicate DistinctIds(s: seq<ChatListNodeEntry>) {
    forall i, j :: 0 <= i < j < |s| ==> s[i].StableId() != s[j].StableId()
  }

  /**
   * When the storage layer delivers at most one record per stable id, the
   * projected list has pairwise distinct stable ids, search row included.
   */
  lemma ProjectionKeepsIdsDistinct(view: Postbox.ChatListView)
    requires forall i, j :: 0 <= i < j < |view.entries| ==> RecordStableId(view.entries[i]) != RecordStableId(view.entries[j])
    ensures DistinctIds(EntriesForView(view))
  {
    var r := EntriesForView(view);
    forall i, j | 0 <= i < j < |r| ensures r[i].StableId() != r[j].StableId() {
      if j == |view.entries| {
        assert r[j] == SearchEntry;
        assert r[i] == ProjectEntry(view.entries[i]);
      } else {
        assert r[i] == ProjectEntry(view.entries[i]) && r[j] == ProjectEntry(view.entries[j]);
      }
    }
  }

  predicate SortedByIndex(s: seq<ChatListNodeEntry>) {
    forall i, j :: 0 <= i < j < |s| ==> EntryLess(s[i], s[j])
  }

  /**
   * A view delivered in ascending order, none of whose keys is the absolute
   * upper bound, projects onto an ascending list: the search row, when
   * present, is the greatest.
   */
  lemma ProjectionKeepsOrder(view: Postbox.ChatListView)
    requires forall i, j :: 0 <= i < j < |view.entries| ==> EntryLess(ProjectEntry(view.entries[i]), ProjectEntry(view.entries[j]))
    requires forall i :: 0 <= i < |view.entries| ==> ProjectEntry(view.entries[i]).Index() != Postbox.AbsoluteUpperBound()
    ensures SortedByIndex(EntriesForView(view))
  {
    var r := EntriesForView(view);
    forall i, j | 0 <= i < j < |r| ensures EntryLess(r[i], r[j]) {
      assert r[i] == ProjectEntry(view.entries[i]);
      if j == |view.entries| {
        SearchEntryIsTop(r[i]);
      } else {
        assert r[j] == ProjectEntry(view.entries[j]);
      }
    }
  }
}
