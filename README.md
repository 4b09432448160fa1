# TelegramUI core, modelled in Dafny

This project models a handful of pieces of the Telegram iOS client's
TelegramUI layer, with their properties proved:

- **Chat list entries.** The rows of the chat list: their identity, order, equality and stable id. Also the projection of a storage-layer `ChatListView` onto the rows the list shows.
- **Country list.** The parser that reads the country table (`code;id;name` lines) and the first-wins dictionary built from it.
- **Passcode presentation settings.** The settings value, its key/value encoding, its equality and updaters, and the update of the stored preferences entry.
- **`isMediaStreamable`.** The guards that decide whether a file can be played while it downloads.
- **Locale.** The region suffix of the system locale, and the locale identifier built for the interface language.
- **Forward accessory panel.** The summary of the messages being forwarded: the distinct authors, and the text or the message count.
- **Instant-page gallery footer.** How the caption and the credit become the footer text, and when the share button shows.
- **Search bar.** The text field's state machine: text, prefix, placeholder and clear-button visibility, the activity indicator, clearing, delete-backward and newline rejection.

One Dafny module per Swift file (`chat_list_entries.dfy`, `country_list.dfy`,
`passcode_settings.dfy`, `media_streamable.dfy`, `locale.dfy`,
`forward_panel.dfy`, `gallery_footer.dfy`, `search_bar.dfy`), plus three
shared modules:

- `wrappers.dfy` holds `Option`.
- `text.dfy` holds character search as Foundation's `range(of:)` does it, decimal formatting, and Swift's `Int(String)`.
- `postbox.dfy` holds the storage-layer value types the core consumes.

Pure Swift code is modelled with datatypes, functions and lemmas. Loops become
methods proved against specification functions: the entries projection, the
parse loop, the dictionary build and the forward summary. The stateful UI
objects become classes whose methods state their whole new state: the forward
panel, the gallery footer and the search bar.

## Model

| member | source | states |
|---|---|---|
| ChatListNodeEntries.HashValue | TelegramUI/ChatListNodeEntries.swift:10-19 | The hash of a row id is a 64-bit `Int` |
| ChatListNodeEntries.IdEqual | TelegramUI/ChatListNodeEntries.swift:36-60 | Row-id equality holds exactly for the same case with the same payload; different cases are never equal |
| ChatListNodeEntries.IdEqualImpliesEqualHash | TelegramUI/ChatListNodeEntries.swift:10-19 | Equal ids have equal hash values, as `Hashable` requires |
| ChatListNodeEntries.IdLess | TelegramUI/ChatListNodeEntries.swift:32-34 | An id below another is unequal to it, and the other is not below it |
| ChatListNodeEntries.IdLessIgnoresVariant | TelegramUI/ChatListNodeEntries.swift:32-34 | Id `<` compares hashes only: it is irreflexive and transitive, and two ids are incomparable exactly when their hashes agree. So `Hole(n)` and `PeerId(n)` are unequal yet incomparable, and so are `Search` and `Hole(0)` |
| ChatListNodeEntries.ChatListNodeEntry.Index | TelegramUI/ChatListNodeEntries.swift:69-80 | The stable id is determined by the sort key: a message or "nothing" row is identified by the peer of its key, a hole by the message id of its key |
| ChatListNodeEntries.ChatListNodeEntry.StableId | TelegramUI/ChatListNodeEntries.swift:82-93 | Only the search row has the `Search` id, and exactly the holes have `Hole` ids |
| ChatListNodeEntries.EntryEqual | TelegramUI/ChatListNodeEntries.swift:99-141 | Equal rows are of the same kind and have the same stable id |
| ChatListNodeEntries.EntryLess | TelegramUI/ChatListNodeEntries.swift:95-97 | Row `<` is asymmetric and never holds between rows with the same sort key; nothing is above the search row |
| ChatListNodeEntries.EntryEqualIsEquivalence | TelegramUI/ChatListNodeEntries.swift:99-141 | Row `==` is reflexive, symmetric and transitive |
| ChatListNodeEntries.MessageEntryEquality | TelegramUI/ChatListNodeEntries.swift:108-124 | Two message rows are equal iff message id, flags and read state agree and the notification settings are both absent or both present and `isEqual`. One present and one absent is unequal, and a message row never equals another kind of row |
| ChatListNodeEntries.PayloadEntryEquality | TelegramUI/ChatListNodeEntries.swift:101-107 | Search, hole and "nothing" rows are equal exactly when they are identical |
| ChatListNodeEntries.MessageRowIgnoresContent | TelegramUI/ChatListNodeEntries.swift:111 | A message row whose text or timestamp changed still compares equal |
| ChatListNodeEntries.MessageAndNothingShareId | TelegramUI/ChatListNodeEntries.swift:82-93 | A message row and a "nothing" row of the same chat have the same stable id although they are unequal |
| ChatListNodeEntries.SearchEntryIsTop | TelegramUI/ChatListNodeEntries.swift:69-72 | No row sorts above the search row, and every row whose index is not the absolute upper bound sorts below it |
| ChatListNodeEntries.ProjectEntry | TelegramUI/ChatListNodeEntries.swift:146-155 | A view record never becomes the search row |
| ChatListNodeEntries.ProjectEntryRoundTrip | TelegramUI/ChatListNodeEntries.swift:146-155 | The record can be read back from its row: same kind, same payload |
| ChatListNodeEntries.ProjectAll | TelegramUI/ChatListNodeEntries.swift:146-155 | One row per record, in order, each the projection of its record |
| ChatListNodeEntries.ChatListNodeEntriesForView | TelegramUI/ChatListNodeEntries.swift:144-160 | The loop returns the projected rows followed by the search row exactly when `laterIndex` is nil |
| ChatListNodeEntries.ProjectionShape | TelegramUI/ChatListNodeEntries.swift:144-160 | Length is the record count plus one iff `laterIndex` is nil. Every record is kept in order, and there is exactly one search row, last, iff `laterIndex` is nil. An empty view gives just the search row or nothing |
| ChatListNodeEntries.ProjectionKeepsIdsDistinct | TelegramUI/ChatListNodeEntries.swift:82-93 | If the records have distinct stable ids, so do the rows, search row included |
| ChatListNodeEntries.ProjectionKeepsOrder | TelegramUI/ChatListNodeEntries.swift:95-97 | Records in ascending index order, none at the upper bound, give rows in ascending `<` order, with the search row greatest |
| Postbox.ToInt64Injective | TelegramUI/ChatListNodeEntries.swift:87 | Two peers have the same 64-bit id exactly when they are the same peer |
| Postbox.IndexLessIsStrictTotalOrder | TelegramUI/ChatListNodeEntries.swift:95-97 | The index order behind row `<` is a strict total order |
| Postbox.UpperBoundIsMaximal | TelegramUI/ChatListNodeEntries.swift:72 | Nothing sorts above `absoluteUpperBound()`, and everything else sorts below it |
| Text.IndexOfSound | TelegramUI/CountryList.swift:22 | A found position holds the character and is its first occurrence from the start position on; when nothing is found, the character does not occur there |
| Text.IndexOfAt | TelegramUI/CountryList.swift:30 | The first occurrence at or after the start is what the search returns |
| Text.IndexOfCrLfSound | TelegramUI/CountryList.swift:37 | A found `\r\n` starts at the returned position and is the first one; when nothing is found, there is none |
| Text.ParseInt | TelegramUI/CountryList.swift:26 | A parsed integer is within the 64-bit range |
| Text.ParseDecimalString | TelegramUI/CountryList.swift:26 | The decimal text of any 64-bit natural number parses back to that number |
| Text.DecimalString | TelegramUI/ForwardAccessoryPanelNode.swift:65 | The text of a number is nonempty, all digits, and has no leading zero unless the number is 0 |
| Text.DecimalStringValue | TelegramUI/ForwardAccessoryPanelNode.swift:65 | The digits of a number's text evaluate back to the number |
| CountryList.NameRange | TelegramUI/CountryList.swift:37-48 | The name's line break, when found, lies after the start and ends with `\n` |
| CountryList.NameEndsAtFirstLineBreak | TelegramUI/CountryList.swift:37-48 | Choosing the earlier of the `\r\n` and `\n` matches gives the first `\n`, taken together with a `\r` right before it. There is none iff there is no `\n` |
| CountryList.StepAt | TelegramUI/CountryList.swift:21-54 | One pass either stops, or yields a record and moves past a `\n`, or reaches an unterminated last line, always moving forward |
| CountryList.ScanFrom | TelegramUI/CountryList.swift:21-61 | The records the loop collects from a position on; each record uses up at least one character of the text |
| CountryList.LastLineAsWritten | TelegramUI/CountryList.swift:52-56 | A last line without a line break traps exactly when its name would start at the end of the text; otherwise its name is one character shorter than the rest of the text |
| CountryList.LoadCountriesInfo | TelegramUI/CountryList.swift:14-62 | The parse loop, with its guards on the code's `;`, the code, the id's `;` and the line break, returns the records the scan specification collects from the start, including the trap on a malformed last line |
| CountryList.BlankLineStops | TelegramUI/CountryList.swift:22-28 | A line starting with a line feed stops the loop with no further records |
| CountryList.AtMostOneRecordPerLine | TelegramUI/CountryList.swift:21-61 | No more records than line feeds, plus one for an unterminated last line |
| CountryList.EmptyInputYieldsNothing | TelegramUI/CountryList.swift:22-24 | An empty text yields no records |
| CountryList.FormatThenLoad | TelegramUI/CountryList.swift:14-62 | A table of well-formed records, each line ended by `\n`, reads back exactly |
| CountryList.AsWrittenLastLineLosesCharacter | TelegramUI/CountryList.swift:52-54 | As written, a last line without a line break loses the last character of its name, and traps when the name is empty |
| CountryList.CorrectedLoadsUnterminated | TelegramUI/CountryList.swift:52-54 | With the name running to the end of the text, a table without a final line break reads back exactly |
| CountryList.CountryCodeToIdAndName | TelegramUI/CountryList.swift:67-75 | The dictionary's keys are exactly the codes in the table, and each code maps to the id and name of its first record |
| PasscodeSettings.PresentationPasscodeSettings.WithUpdatedEnableBiometrics | TelegramUI/PresentationPasscodeSettings.swift:44-46 | Only biometrics changes |
| PasscodeSettings.PresentationPasscodeSettings.WithUpdatedAutolockTimeout | TelegramUI/PresentationPasscodeSettings.swift:48-50 | Only the timeout changes |
| PasscodeSettings.DefaultSettings | TelegramUI/PresentationPasscodeSettings.swift:9-11 | The default settings are what a coder holding nothing decodes to |
| PasscodeSettings.Equal | TelegramUI/PresentationPasscodeSettings.swift:40-42 | The hand-written `==` is exactly value equality |
| PasscodeSettings.IsEqual | TelegramUI/PresentationPasscodeSettings.swift:32-38 | `isEqual(to:)` holds exactly for a passcode-settings entry holding the same value |
| PasscodeSettings.Encode | TelegramUI/PresentationPasscodeSettings.swift:23-30 | `"s"` holds 1 or 0 and `"al"` holds the timeout or nil; every other key is unchanged |
| PasscodeSettings.Decode | TelegramUI/PresentationPasscodeSettings.swift:18-21 | Biometrics are on only when `"s"` holds a nonzero integer; there is a timeout exactly when `"al"` holds an integer |
| PasscodeSettings.DecodeEncode | TelegramUI/PresentationPasscodeSettings.swift:18-30 | Decoding an encoding gives the settings back, whatever the encoder held before |
| PasscodeSettings.DecodeBiometrics | TelegramUI/PresentationPasscodeSettings.swift:18-21 | A missing `"s"` means biometrics off; a stored integer means on iff it is nonzero |
| PasscodeSettings.CurrentSettings | TelegramUI/PresentationPasscodeSettings.swift:61 | The stored passcode settings when present, the default otherwise |
| PasscodeSettings.UpdatePresentationPasscodeSettingsInternal | TelegramUI/PresentationPasscodeSettings.swift:59-69 | The passcode key holds `f` of the current settings; no other entry changes and no key is lost |
| PasscodeSettings.UpdateTwice | TelegramUI/PresentationPasscodeSettings.swift:59-69 | Two updates in a row equal one update by the composed function |
| PasscodeSettings.UpdateWithIdentity | TelegramUI/PresentationPasscodeSettings.swift:9-11 | Updating with the identity stores the current settings: the default when nothing was stored |
| PasscodeSettings.UpdatersCommute | TelegramUI/PresentationPasscodeSettings.swift:44-50 | The two updaters commute, and updating a field to its own value changes nothing |
| MediaStreamable.VideoSupportsStreaming | TelegramUI/IsMediaStreamable.swift:21-29 | A true answer comes from a video attribute carrying the streaming flag |
| MediaStreamable.VideoSupportsStreamingIsFirstVideo | TelegramUI/IsMediaStreamable.swift:21-28 | The attribute loop answers true iff there is a first video attribute and it carries the streaming flag |
| MediaStreamable.LaterVideosIgnored | TelegramUI/IsMediaStreamable.swift:21-28 | Attributes after the first video attribute never change the answer |
| MediaStreamable.NoVideoNoStreaming | TelegramUI/IsMediaStreamable.swift:29 | Without a video attribute the answer is false |
| MediaStreamable.IsMediaStreamable | TelegramUI/IsMediaStreamable.swift:5-20 | A streamable file has no secret media, is not in a secret chat, has a known size of at least 1 MiB, and is not animated |
| MediaStreamable.StreamableIff | TelegramUI/IsMediaStreamable.swift:5-30 | Streamable iff every guard passes and the first video attribute supports streaming |
| LocaleSuffix.SystemLocaleRegionSuffix | TelegramUI/Locale.swift:3-10 | The suffix is the identifier from its first `_` on: a suffix of the identifier whose front has no `_`, starting with `_`, and empty iff there is no `_` |
| LocaleSuffix.LocaleIdentifier | TelegramUI/Locale.swift:14-17 | The identifier starts with the language code and continues with the system region suffix |
| LocaleSuffix.NoRegionGivesLanguageCode | TelegramUI/Locale.swift:7-8 | Without a region in the system identifier, the locale is the bare language code |
| LocaleSuffix.SuffixOfBuiltIdentifier | TelegramUI/Locale.swift:14-17 | For a language code without `_`, the built identifier carries the system region suffix again |
| ForwardPanel.AuthorIndicesSpec | TelegramUI/ForwardAccessoryPanelNode.swift:53-61 | Names are taken exactly at the first message of each author, in message order; messages without an author contribute none |
| ForwardPanel.AuthorsDistinct | TelegramUI/ForwardAccessoryPanelNode.swift:54-55 | No two names come from authors with the same id |
| ForwardPanel.JoinAppend | TelegramUI/ForwardAccessoryPanelNode.swift:56-59 | Appending a name after a nonempty list adds `", "` and the name |
| ForwardPanel.DropLeadingEmptyAppend | TelegramUI/ForwardAccessoryPanelNode.swift:56-58 | Empty names before the first nonempty one leave no separator behind |
| ForwardPanel.SeenIdsStep | TelegramUI/ForwardAccessoryPanelNode.swift:54-55 | A message adds a name exactly when it has an author whose id is not in the seen set, which then grows by that id |
| ForwardPanel.AuthorsStep | TelegramUI/ForwardAccessoryPanelNode.swift:56-59 | The separator rule extends the joined names by the new author's name |
| ForwardPanel.ForwardSummary | TelegramUI/ForwardAccessoryPanelNode.swift:50-66 | The title is the distinct authors' names joined by `", "`, empty leading names dropped. The text is the single message's text, or the count followed by " messages" |
| ForwardPanel.CountReadsBack | TelegramUI/ForwardAccessoryPanelNode.swift:65 | The count can be read back from the text before its first space |
| ForwardPanel.NoMessagesText | TelegramUI/ForwardAccessoryPanelNode.swift:62-65 | No messages give "0 messages" |
| ForwardPanel.ForwardAccessoryPanelNode.MessagesLoaded | TelegramUI/ForwardAccessoryPanelNode.swift:49-71 | The title and text nodes show the summary, and layout is requested |
| GalleryFooter.FooterText | TelegramUI/InstantPageGalleryFooterContentNode.swift:71-83 | There is a text iff the caption or the credit is nonempty, and the text shown is never empty |
| GalleryFooter.FooterTextSplits | TelegramUI/InstantPageGalleryFooterContentNode.swift:76-78 | With both parts present, the first line break separates caption and credit again (for a caption without line breaks) |
| GalleryFooter.FooterTextSinglePart | TelegramUI/InstantPageGalleryFooterContentNode.swift:72-81 | With one part empty, the text is the other part unchanged |
| GalleryFooter.InstantPageGalleryFooterContentNode.constructor | TelegramUI/InstantPageGalleryFooterContentNode.swift:22 | No caption yet, the text node is shown but empty, and no media |
| GalleryFooter.InstantPageGalleryFooterContentNode.SetCaption | TelegramUI/InstantPageGalleryFooterContentNode.swift:67-95 | An unchanged caption changes nothing, whatever the credit. Otherwise the caption is remembered, the text node shows the footer text or is hidden, one layout is requested, and the share state is untouched |
| GalleryFooter.InstantPageGalleryFooterContentNode.SetShareMedia | TelegramUI/InstantPageGalleryFooterContentNode.swift:97-100 | The media is stored and the action button is hidden iff there is none; the text state is untouched |
| SearchBar.PrefixUpdated | TelegramUI/SearchBarNode.swift:169-174 | The setter's `updated` test is exactly inequality of the old and new prefix |
| SearchBar.ShouldChangeCharacters | TelegramUI/SearchBarNode.swift:464-469 | A replacement is accepted iff it contains no line feed |
| SearchBar.TextOf | TelegramUI/SearchBarNode.swift:186 | A missing text reads as the empty string |
| SearchBar.SearchBarNode.constructor | TelegramUI/SearchBarNode.swift:256 | No text, no prefix, the placeholder shown, the clear button hidden, no activity, no events |
| SearchBar.SearchBarNode.UpdateIsEmpty | TelegramUI/SearchBarNode.swift:483-489 | The placeholder is hidden iff there is text; the clear button is hidden iff there is neither text nor prefix |
| SearchBar.SearchBarNode.TextFieldDidChange | TelegramUI/SearchBarNode.swift:476-481 | Visibility is refreshed, and the text (missing read as empty) is reported when a listener is installed |
| SearchBar.SearchBarNode.SetText | TelegramUI/SearchBarNode.swift:184-193 | A value equal to the current text changes nothing. Otherwise it is stored and reported, and the clear button is refreshed to match. The placeholder invariant holds, and a matching clear button stays matching. It is accepted in any valid state, including after `deactivate` |
| SearchBar.SearchBarNode.SetPrefix | TelegramUI/SearchBarNode.swift:165-182 | Setting an equal prefix changes nothing. Otherwise the prefix is stored and the visibility is refreshed, so the clear button matches. It is accepted in any valid state |
| SearchBar.SearchBarNode.SetActivity | TelegramUI/SearchBarNode.swift:195-214 | Afterwards an indicator exists and the icon is hidden exactly while there is activity |
| SearchBar.SearchBarNode.ClearPressed | TelegramUI/SearchBarNode.swift:497-506 | With text, the text becomes empty, the empty text is reported and the clear button is refreshed. With no text and a prefix, `clearPrefix` fires and the visibility is untouched. With neither, nothing changes |
| SearchBar.SearchBarNode.DeleteBackward | TelegramUI/SearchBarNode.swift:99-104 | On empty or missing text the clear action runs (firing `clearPrefix` when there is a prefix, visibility untouched). Otherwise the last character goes, the shorter text is reported and the clear button is refreshed |
| SearchBar.SearchBarNode.Deactivate | TelegramUI/SearchBarNode.swift:384-390 | Focus is given up. When clearing, the text becomes nil and the placeholder shows. The clear button is left as it was |
| SearchBar.DeactivateLeavesClearButton | TelegramUI/SearchBarNode.swift:384-390 | After text is set and `deactivate(clear: true)` runs, there is neither text nor prefix yet the clear button shows, and pressing it leaves it so; the next text set makes it match again |

## Left out

- Geometry, drawing and animation: layout, `transitionOut`, the footer's `updateLayout`, the forward panel's layout. They are floating-point frame arithmetic and UIKit/CoreAnimation calls.
- Reading the country table from the application bundle, and decoding it as UTF-8: the text is a parameter, and a missing or unreadable file (which yields no records) is not modelled.
- `Locale.current`: the system identifier is a parameter. `Locale(identifier:)` is represented by its identifier string.
- The postbox transaction and the signals around `updatePresentationPasscodeSettingsInternal` and the forward panel's `messagesAtIds`: the stored preferences are a map, and the loaded messages are a parameter.
- Foreign types from the Postbox and TelegramCore frameworks:
  - `PeerId.toInt64()` is modelled as the namespace in the high word and the id's bit pattern in the low word.
  - The order on `MessageIndex` is a lexicographic stand-in (timestamp, then message id, then peer).
  - `absoluteUpperBound()` is all fields at their maximum.
  - `containsSecretMedia` is a stored flag.
  - `Namespaces.Peer.SecretChat` is taken as 3.
  - The preferences key's raw value is taken as 1, from TelegramUI/PreferencesKeys.swift:7.
- ChatListNodeEntries.HashValue: `Int64.hashValue` is taken to be the value itself, as on 64-bit platforms of that Swift version.
- Postbox.PeerNotificationSettings.IsEqual: `isEqual(to:)` is a protocol requirement implemented in TelegramCore, whose source is not part of this model. It is taken to be field-wise equality over the modelled fields. That row equality is an equivalence (ChatListNodeEntries.EntryEqualIsEquivalence) depends on this.
- `PostboxDecoder` on a key whose stored value has another type: it is read as absent, giving the fallback.
- Attributed strings are plain strings. Captions, credits and prefixes compare by their characters only, not their attributes, fonts or colours.
- Text.IndexOf: searches character by character. Foundation's `range(of:)` works on UTF-16 code units, and Swift treats `"\r\n"` as one grapheme, so the two can differ in how a `\r\n` pair is split. The model treats the text as a sequence of code units.
- SearchBar.SearchBarNode.DeleteBackward: assumes UIKit deletes the character before a cursor at the end of the text and reports it through `editingChanged`. Programmatic assignments to the text do not report.
- The search bar's activity indicator is a flag; its creation, view hierarchy and the relayout after creating it are not modelled. `cancel`, `textFieldShouldReturn`, the placeholder string and the theme are left out.
- The chat list row's `description` is left out: it is only for debugging.
- TelegramUI/ChatMessageEventLogPreviousMessageContentNode.swift is not part of this model: it only lays out text through foreign calls.
- TelegramUI/PreferencesKeys.swift is not modelled beyond the one raw value used.

## Findings

| source | as written | input that shows it | evidently intended | confidence | as-written member | corrected member |
|---|---|---|---|---|---|---|
| TelegramUI/CountryList.swift:52-54 | The last line, when not ended by a line break, takes its name up to one character before the end of the text | `1;US;USA` yields the name `US`; `1;US;` traps, because the range's lower bound exceeds its upper bound | The name runs to the end of the text | medium, not executed | CountryList.AsWrittenLastLineLosesCharacter | CountryList.CorrectedLoadsUnterminated |
