/**
 * Whether a file attached to a message can be played while it downloads: a
 * chain of guards on the message and the file, then the first video
 * attribute of the file decides.
 */
module MediaStreamable {
  import opened Wrappers
  import opened Postbox

  /** `Namespaces.Peer.SecretChat`. */
  const SecretChatNamespace: Int32 := 3

  /** Files smaller than 1 MiB are never streamed. */
  const MinStreamableSize: int := 1 * 1024 * 1024

  /** The flags of a video attribute. */
  datatype VideoFlag = InstantRoundVideo | SupportsStreaming

  /** A file attribute; only video attributes matter here. */
  datatype FileAttribute = Video(flags: set<VideoFlag>) | OtherAttribute(kind: int)

  datatype TelegramMediaFile = TelegramMediaFile(size: Option<int>, isAnimated: bool, attributes: seq<FileAttribute>)

  /** The position of the first video attribute: none before it is a video. */
  predicate IsFirstVideo(attributes: seq<FileAttribute>, i: int) {
    0 <= i < |attributes| && attributes[i].Video? && forall j :: 0 <= j < i ==> !attributes[j].Video?
  }

  /**
   * The attribute loop: at the first video attribute, answer whether it
   * supports streaming and stop; without one, answer false.
   */
  function VideoSupportsStreaming(attributes: seq<FileAttribute>): (r: bool)
    ensures r ==> exists i :: 0 <= i < |attributes| && attributes[i].Video? && SupportsStreaming in attributes[i].flags
  {
    if attributes == [] then false
    else
      match attributes[0]
      case Video(flags) => SupportsStreaming in flags
      case OtherAttribute(_) => VideoSupportsStreaming(attributes[1..])
  }

  /** The loop answers true exactly when there is a first video attribute and it has the streaming flag. */
  lemma {:induction false} VideoSupportsStreamingIsFirstVideo(attributes: seq<FileAttribute>)
    ensures VideoSupportsStreaming(attributes) <==>
      exists i :: IsFirstVideo(attributes, i) && SupportsStreaming in attributes[i].flags
  {
    if attributes != [] {
      if attributes[0].Video? {
        assert IsFirstVideo(attributes, 0);
        forall i | IsFirstVideo(attributes, i) ensures i == 0 {
        }
      } else {
        var rest := attributes[1..];
        VideoSupportsStreamingIsFirstVideo(rest);
        if VideoSupportsStreaming(attributes) {
          var i :| IsFirstVideo(rest, i) && SupportsStreaming in rest[i].flags;
          assert IsFirstVideo(attributes, i + 1) by {
            forall j | 0 <= j < i + 1 ensures !attributes[j].Video? {
              if j > 0 { assert attributes[j] == rest[j - 1]; }
            }
          }
        } else {
          forall i | IsFirstVideo(attributes, i) ensures SupportsStreaming !in attributes[i].flags {
            assert i > 0;
            assert IsFirstVideo(rest, i - 1) by {
              forall j | 0 <= j < i - 1 ensures !rest[j].Video? {
                assert rest[j] == attributes[j + 1];
              }
            }
          }
        }
      }
    }
  }

  /** Video attributes after the first one are never looked at. */
  lemma {:induction false} LaterVideosIgnored(attributes: seq<FileAttribute>, i: nat, later: seq<FileAttribute>)
    requires IsFirstVideo(attributes, i)
    ensures VideoSupportsStreaming(attributes[..i + 1] + later) == VideoSupportsStreaming(attributes)
    decreases i
  {
    var front := attributes[..i + 1] + later;
    if i == 0 {
      assert front[0] == attributes[0];
    } else {
      assert front[0] == attributes[0];
      assert !attributes[0].Video?;
      assert IsFirstVideo(attributes[1..], i - 1);
      LaterVideosIgnored(attributes[1..], i - 1, later);
      assert front[1..] == attributes[1..][..i] + later;
    }
  }

  /** Without a video attribute the answer is false. */
  lemma {:induction false} NoVideoNoStreaming(attributes: seq<FileAttribute>)
    requires forall i :: 0 <= i < |attributes| ==> !attributes[i].Video?
    ensures !VideoSupportsStreaming(attributes)
  {
    if attributes != [] {
      assert !attributes[0].Video?;
      NoVideoNoStreaming(attributes[1..]);
    }
  }

  /** `isMediaStreamable(message:media:)`. */
  function IsMediaStreamable(message: Message, media: TelegramMediaFile): (r: bool)
    ensures r ==> !message.containsSecretMedia
    ensures r ==> message.id.peerId.namespace != SecretChatNamespace
    ensures r ==> media.size.Some? && media.size.value >= MinStreamableSize
    ensures r ==> !media.isAnimated
  {
    if message.containsSecretMedia then false
    else if message.id.peerId.namespace == SecretChatNamespace then false
    else if media.size.None? then false
    else if media.size.value < MinStreamableSize then false
    else if media.isAnimated then false
    else VideoSupportsStreaming(media.attributes)
  }

  /**
   * A file is streamable exactly when no guard refuses it and its first
   * video attribute carries the streaming flag.
   */
  lemma StreamableIff(message: Message, media: TelegramMediaFile)
    ensures IsMediaStreamable(message, media) <==>
      && !message.containsSecretMedia
      && message.id.peerId.namespace != SecretChatNamespace
      && media.size.Some? && media.size.value >= 1048576
      && !media.isAnimated
      && exists i :: IsFirstVideo(media.attributes, i) && SupportsStreaming in media.attributes[i].flags
  {
    VideoSupportsStreamingIsFirstVideo(media.attributes);
  }
}
