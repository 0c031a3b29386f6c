/** The one-shot microphone correction after joining a call. */
module Microphone {
  import opened Wrappers
  import Text

  /** The accessible label the call page shows on the microphone button
      while the microphone is muted. */
  const UnmuteLabel: string := "Unmute mic"

  /** The microphone button as read in the page: absent, or present with an
      `aria-label` attribute that may be missing. */
  datatype MicButton = NoButton | Button(ariaLabel: Option<string>)

  /** What the join sequence does with the microphone: click the button once,
      leave it, or fail reading the label (a missing attribute has no
      `includes`). */
  datatype MicStep = ClickOnce | LeaveMuted | LabelReadError

  /** Clicks once unless the label already offers to unmute. An absent
      button reads as "not muted", so a click is attempted. */
  function NormalizeMic(b: MicButton): (r: MicStep)
    ensures r == ClickOnce <==> b.NoButton? || (b.ariaLabel.Some? && !Text.Contains(b.ariaLabel.value, UnmuteLabel))
    ensures r == LeaveMuted <==> b.Button? && b.ariaLabel.Some? && Text.Contains(b.ariaLabel.value, UnmuteLabel)
    ensures r == LabelReadError <==> b == Button(None)
  {
    match b
    case NoButton => ClickOnce
    case Button(None) => LabelReadError
    case Button(Some(aria)) => if Text.IndexOf(aria, UnmuteLabel).Some? then LeaveMuted else ClickOnce
  }

  /** Any label that mentions "Unmute mic", with whatever around it, leaves
      the microphone alone. */
  lemma MutedLabelIsLeft(pre: string, post: string)
    ensures NormalizeMic(Button(Some(pre + UnmuteLabel + post))) == LeaveMuted
  {
    var aria := pre + UnmuteLabel + post;
    assert aria[|pre|..|pre| + |UnmuteLabel|] == UnmuteLabel;
    assert Text.OccursAt(aria, UnmuteLabel, |pre|);
  }

  /** A label shorter than "Unmute mic", such as "Mute mic", gets the click. */
  lemma ShortLabelIsClicked(aria: string)
    requires |aria| < |UnmuteLabel|
    ensures NormalizeMic(Button(Some(aria))) == ClickOnce
  {
    assert !Text.Contains(aria, UnmuteLabel);
  }
}
