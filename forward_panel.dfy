/**
 * The summary shown by the panel above the input field when messages are
 * being forwarded: the distinct authors' names as a title, and either the
 * single message's text or the number of messages.
 */
module ForwardPanel {
  import opened Wrappers
  import opened Text
  import opened Postbox

  /** Message `i` has an author, and no earlier message has an author with the same id. */
  predicate FirstOfAuthor(messages: seq<Message>, i: int) {
    && 0 <= i < |messages|
    && messages[i].author.Some?
    && forall j :: 0 <= j < i ==> !(messages[j].author.Some? && messages[j].author.value.id == messages[i].author.value.id)
  }

  /** The positions, among the first `n` messages, of the first message of each author, in message order. */
  function AuthorIndices(messages: seq<Message>, n: nat): seq<nat>
    requires n <= |messages|
  {
    if n == 0 then []
    else AuthorIndices(messages, n - 1) + (if FirstOfAuthor(messages, n - 1) then [n - 1] else [])
  }

  /** The names contributed by the first `n` messages: one per author, taken from that author's first message. */
  function AuthorTitles(messages: seq<Message>, n: nat): seq<string>
    requires n <= |messages|
  {
    if n == 0 then []
    else
      var added := if FirstOfAuthor(messages, n - 1) then [messages[n - 1].author.value.compactDisplayTitle] else [];
      AuthorTitles(messages, n - 1) + added
  }

  /**
   * The author positions are exactly the first messages of their authors,
   * strictly increasing, and the names are those of the authors there; so
   * each author contributes one name, in the order of its first message,
   * and a message without an author contributes none.
   */
  lemma {:induction false} AuthorIndicesSpec(messages: seq<Message>, n: nat)
    requires n <= |messages|
    ensures var idx := AuthorIndices(messages, n);
      && (forall k :: 0 <= k < |idx| ==> idx[k] < n && FirstOfAuthor(messages, idx[k]))
      && (forall k1, k2 :: 0 <= k1 < k2 < |idx| ==> idx[k1] < idx[k2])
      && (forall i :: 0 <= i < n && FirstOfAuthor(messages, i) ==> i in idx)
    ensures var idx := AuthorIndices(messages, n);
      var titles := AuthorTitles(messages, n);
      |titles| == |idx| && forall k :: 0 <= k < |idx| ==> titles[k] == messages[idx[k]].author.value.compactDisplayTitle
  {
    if n > 0 {
      AuthorIndicesSpec(messages, n - 1);
    }
  }

  /** No two names come from authors with the same id. */
  lemma AuthorsDistinct(messages: seq<Message>, n: nat)
    requires n <= |messages|
    ensures var idx := AuthorIndices(messages, n);
      && (forall k :: 0 <= k < |idx| ==> FirstOfAuthor(messages, idx[k]))
      && forall k1, k2 :: 0 <= k1 < k2 < |idx| ==> messages[idx[k1]].author.value.id != messages[idx[k2]].author.value.id
  {
    AuthorIndicesSpec(messages, n);
  }

  /** The ids of the authors of the first `n` messages. */
  function SeenIds(messages: seq<Message>, n: nat): set<PeerId>
    requires n <= |messages|
  {
    set i | 0 <= i < n && messages[i].author.Some? :: messages[i].author.value.id
  }

  /** Names joined by `", "`. */
  function Join(names: seq<string>): string {
    if names == [] then []
    else if |names| == 1 then names[0]
    else names[0] + ", " + Join(names[1..])
  }

  /** The names from the first nonempty one on. */
  function DropLeadingEmpty(names: seq<string>): (r: seq<string>)
    ensures r == [] || r[0] != []
  {
    if names == [] then []
    else if names[0] == [] then DropLeadingEmpty(names[1..])
    else names
  }

  lemma {:induction false} JoinAppend(names: seq<string>, name: string)
    requires names != []
    ensures Join(names + [name]) == Join(names) + ", " + name
  {
    if |names| == 1 {
      assert (names + [name])[1..] == [name];
    } else {
      assert (names + [name])[1..] == names[1..] + [name];
      JoinAppend(names[1..], name);
    }
  }

  lemma JoinStartsWithFirst(names: seq<string>)
    requires names != []
    ensures |names[0]| <= |Join(names)| && Join(names)[..|names[0]|] == names[0]
  {
    if |names| > 1 {
      assert Join(names) == names[0] + (", " + Join(names[1..]));
    }
  }

  lemma {:induction false} DropLeadingEmptyAppend(names: seq<string>, name: string)
    ensures DropLeadingEmpty(names + [name])
         == if DropLeadingEmpty(names) == [] then (if name == [] then [] else [name]) else DropLeadingEmpty(names) + [name]
  {
    if names == [] {
      assert names + [name] == [name];
      assert [name][1..] == [];
    } else {
      assert (names + [name])[0] == names[0];
      assert (names + [name])[1..] == names[1..] + [name];
      if names[0] == [] {
        DropLeadingEmptyAppend(names[1..], name);
      }
    }
  }

  /** When every name is nonempty, none is dropped. */
  lemma NonEmptyNamesKept(names: seq<string>)
    requires forall i :: 0 <= i < |names| ==> names[i] != []
    ensures DropLeadingEmpty(names) == names
  {
  }

  /** The set of seen ids grows by the message's author, and a message adds a name exactly when its author is new. */
  lemma SeenIdsStep(messages: seq<Message>, i: nat)
    requires i < |messages|
    ensures SeenIds(messages, i + 1)
         == SeenIds(messages, i) + (if messages[i].author.Some? then {messages[i].author.value.id} else {})
    ensures FirstOfAuthor(messages, i) <==> messages[i].author.Some? && messages[i].author.value.id !in SeenIds(messages, i)
    ensures !FirstOfAuthor(messages, i) ==> AuthorTitles(messages, i + 1) == AuthorTitles(messages, i)
  {
    var m := messages[i];
    if m.author.Some? && m.author.value.id in SeenIds(messages, i) {
      var j :| 0 <= j < i && messages[j].author.Some? && messages[j].author.value.id == m.author.value.id;
    }
  }

  /** Appending a new author's name, after `", "` only when something was written, keeps the joined form. */
  lemma AuthorsStep(messages: seq<Message>, i: nat, authors: string)
    requires i < |messages| && FirstOfAuthor(messages, i)
    requires authors == Join(DropLeadingEmpty(AuthorTitles(messages, i)))
    ensures (if authors != [] then authors + ", " else authors) + messages[i].author.value.compactDisplayTitle
         == Join(DropLeadingEmpty(AuthorTitles(messages, i + 1)))
  {
    var title := messages[i].author.value.compactDisplayTitle;
    var titles := AuthorTitles(messages, i);
    var before := DropLeadingEmpty(titles);
    assert AuthorTitles(messages, i + 1) == titles + [title];
    DropLeadingEmptyAppend(titles, title);
    if before != [] {
      JoinStartsWithFirst(before);
      JoinAppend(before, title);
    } else {
      assert authors == [];
    }
  }

  /** One message of the summary loop: a new author adds its id and its name; any other message changes neither. */
  lemma SummaryStep(messages: seq<Message>, i: nat, seen: set<PeerId>, authors: string)
    requires i < |messages|
    requires seen == SeenIds(messages, i)
    requires authors == Join(DropLeadingEmpty(AuthorTitles(messages, i)))
    ensures var m := messages[i];
      if m.author.Some? && m.author.value.id !in seen then
        && seen + {m.author.value.id} == SeenIds(messages, i + 1)
        && (if authors != [] then authors + ", " else authors) + m.author.value.compactDisplayTitle
           == Join(DropLeadingEmpty(AuthorTitles(messages, i + 1)))
      else
        && seen == SeenIds(messages, i + 1)
        && authors == Join(DropLeadingEmpty(AuthorTitles(messages, i + 1)))
  {
    SeenIdsStep(messages, i);
    if FirstOfAuthor(messages, i) {
      AuthorsStep(messages, i, authors);
    }
  }

  /**
   * The loop of the `messagesAtIds` callback: each author whose id was not
   * seen yet appends its name, after `", "` unless nothing was written yet;
   * then the text is the single message's text or the message count.
   */
  method ForwardSummary(messages: seq<Message>) returns (authors: string, text: string)
    ensures authors == Join(DropLeadingEmpty(AuthorTitles(messages, |messages|)))
    ensures text == if |messages| == 1 then messages[0].text else DecimalString(|messages|) + " messages"
  {
    authors := "";
    var uniquePeerIds: set<PeerId> := {};
    text := "";
    for i := 0 to |messages|
      invariant uniquePeerIds == SeenIds(messages, i)
      invariant authors == Join(DropLeadingEmpty(AuthorTitles(messages, i)))
    {
      var message := messages[i];
      SummaryStep(messages, i, uniquePeerIds, authors);
      if message.author.Some? && message.author.value.id !in uniquePeerIds {
        var author := message.author.value;
        uniquePeerIds := uniquePeerIds + {author.id};
        if authors != [] {
          authors := authors + ", ";
        }
        authors := authors + author.compactDisplayTitle;
      }
    }
    if |messages| == 1 {
      text := messages[0].text;
    } else {
      text := DecimalString(|messages|) + " messages";
    }
  }

  /** For any count but one, the count reads back from the text before its first space. */
  lemma CountReadsBack(n: nat)
    requires n <= Int64Max
    ensures var text := DecimalString(n) + " messages";
      IndexOf(text, ' ', 0) == Some(|DecimalString(n)|)
      && ParseInt(text[..|DecimalString(n)|]) == Some(n)
  {
    var digits := DecimalString(n);
    var text := digits + " messages";
    assert text[|digits|] == ' ';
    forall j | 0 <= j < |digits| ensures text[j] != ' ' {
      assert text[j] == digits[j];
    }
    IndexOfAt(text, ' ', 0, |digits|);
    assert text[..|digits|] == digits;
    ParseDecimalString(n);
  }

  /** No messages read as "0 messages". */
  lemma NoMessagesText()
    ensures DecimalString(0) + " messages" == "0 messages"
  {
  }

  /** The panel's text nodes and whether it asked for layout. */
  class ForwardAccessoryPanelNode {
    const messageIds: seq<MessageId>
    var titleText: Option<string>
    var text: Option<string>
    var needsLayout: bool

    constructor(messageIds: seq<MessageId>)
      ensures this.messageIds == messageIds
      ensures titleText == None && text == None && !needsLayout
    {
      this.messageIds := messageIds;
      titleText := None;
      text := None;
      needsLayout := false;
    }

    /** The messages arrived: show the summary and ask for layout. */
    method MessagesLoaded(messages: seq<Message>)
      modifies this
      ensures titleText == Some(Join(DropLeadingEmpty(AuthorTitles(messages, |messages|))))
      ensures text == Some(if |messages| == 1 then messages[0].text else DecimalString(|messages|) + " messages")
      ensures needsLayout
    {
      var authors, summary := ForwardSummary(messages);
      titleText := Some(authors);
      text := Some(summary);
      needsLayout := true;
    }
  }
}
