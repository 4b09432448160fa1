/**
 * The footer under an instant-page gallery item: the caption and the credit
 * shown as one text, and a share button shown only when there is something
 * to share. Text attributes are not modelled; a caption is its characters.
 */
module GalleryFooter {
  import opened Wrappers
  import opened Text

  /** A reference to the media the share button would share. */
  datatype MediaReference = MediaReference(id: int)

  /**
   * The footer text for a caption and a credit: nothing when both are empty,
   * the nonempty one alone, or the caption, a line break and the credit.
   */
  function FooterText(caption: string, credit: string): (r: Option<string>)
    ensures r.None? <==> caption == [] && credit == []
    ensures r.Some? ==> r.value != []
  {
    if caption == [] && credit == [] then None
    else if credit == [] then Some(caption)
    else if caption == [] then Some(credit)
    else Some(caption + "\n" + credit)
  }

  /**
   * With both parts present and no line break in the caption, the first line
   * break of the text separates them again: the caption and the credit are
   * recovered from the text.
   */
  lemma FooterTextSplits(caption: string, credit: string)
    requires caption != [] && credit != []
    requires forall i :: 0 <= i < |caption| ==> caption[i] != '\n'
    ensures var t := FooterText(caption, credit).value;
      && IndexOf(t, '\n', 0) == Some(|caption|)
      && t[..|caption|] == caption
      && t[|caption| + 1..] == credit
  {
    var t := caption + "\n" + credit;
    assert t[|caption|] == '\n';
    forall j | 0 <= j < |caption| ensures t[j] != '\n' {
      assert t[j] == caption[j];
    }
    IndexOfAt(t, '\n', 0, |caption|);
    assert t[..|caption|] == caption;
    assert t[|caption| + 1..] == credit;
  }

  /** With one part empty, the text is the other part unchanged. */
  lemma FooterTextSinglePart(caption: string, credit: string)
    ensures caption == [] && credit != [] ==> FooterText(caption, credit) == Some(credit)
    ensures caption != [] && credit == [] ==> FooterText(caption, credit) == Some(caption)
  {
  }

  class InstantPageGalleryFooterContentNode {
    /** The last caption set, so that setting it again is skipped. */
    var currentMessageText: Option<string>
    /** The text node: whether it is hidden and what it shows. */
    var textHidden: bool
    var displayedText: Option<string>
    var shareMedia: Option<MediaReference>
    var actionButtonHidden: bool
    /** Whether a `requestLayout` callback is installed, and how many layouts it was asked for. */
    const hasRequestLayout: bool
    var layoutRequests: nat

    /** Once a caption was set, the text node is hidden exactly when it shows nothing, and never shows an empty text. */
    predicate Valid()
      reads this
    {
      && (currentMessageText.Some? ==> (textHidden <==> displayedText.None?))
      && (displayedText.Some? ==> displayedText.value != [])
    }

    constructor(hasRequestLayout: bool)
      ensures Valid()
      ensures this.hasRequestLayout == hasRequestLayout
      ensures currentMessageText == None && !textHidden && displayedText == None
      ensures shareMedia == None && !actionButtonHidden && layoutRequests == 0
    {
      this.hasRequestLayout := hasRequestLayout;
      currentMessageText := None;
      textHidden := false;
      displayedText := None;
      shareMedia := None;
      actionButtonHidden := false;
      layoutRequests := 0;
    }

    /**
     * `setCaption`: skipped when the caption equals the last one, whatever
     * the credit; otherwise the caption is remembered, the text node shows
     * the footer text or is hidden, and a layout is requested.
     */
    method SetCaption(caption: string, credit: string)
      requires Valid()
      modifies this
      ensures Valid()
      ensures old(currentMessageText) == Some(caption) ==> unchanged(this)
      ensures old(currentMessageText) != Some(caption) ==>
        && currentMessageText == Some(caption)
        && displayedText == FooterText(caption, credit)
        && textHidden == FooterText(caption, credit).None?
        && layoutRequests == old(layoutRequests) + (if hasRequestLayout then 1 else 0)
      ensures shareMedia == old(shareMedia) && actionButtonHidden == old(actionButtonHidden)
    {
      if currentMessageText != Some(caption) {
        currentMessageText := Some(caption);

        var attributedText: Option<string> := None;
        if |caption| > 0 {
          attributedText := Some(caption);
        }
        if |credit| > 0 {
          if attributedText.Some? {
            attributedText := Some(attributedText.value + "\n");
            attributedText := Some(attributedText.value + credit);
          } else {
            attributedText := Some(credit);
          }
        }

        if attributedText.Some? {
          textHidden := false;
          displayedText := attributedText;
        } else {
          textHidden := true;
          displayedText := None;
        }

        if hasRequestLayout {
          layoutRequests := layoutRequests + 1;
        }
      }
    }

    /** `setShareMedia`: the media is stored and the action button is hidden exactly when there is none. */
    method SetShareMedia(shareMedia: Option<MediaReference>)
      requires Valid()
      modifies this
      ensures Valid()
      ensures this.shareMedia == shareMedia
      ensures actionButtonHidden <==> shareMedia.None?
      ensures currentMessageText == old(currentMessageText) && textHidden == old(textHidden)
      ensures displayedText == old(displayedText) && layoutRequests == old(layoutRequests)
    {
      this.shareMedia := shareMedia;
      actionButtonHidden := shareMedia == None;
    }
  }
}
