/**
 * The soft-keyboard edge detector: on every layout pass it decides from the
 * height difference whether the keyboard is shown, and calls back only when
 * that differs from what it remembers.
 */
module Keyboard {
  import opened Wrappers

  /** The remembered state after a layout pass, and the callback made, if any. */
  datatype Layout = Layout(open: bool, callback: Option<bool>)

  /** One pass with the remembered state alreadyOpen. */
  function OnLayout(alreadyOpen: bool, heightDiff: int, threshold: int): (r: Layout)
    ensures r.open == (heightDiff >= threshold)
    ensures r.callback.Some? <==> r.open != alreadyOpen
    ensures r.callback.Some? ==> r.callback.value == r.open
  {
    var isShown := heightDiff >= threshold;
    if isShown == alreadyOpen then Layout(alreadyOpen, None) else Layout(isShown, Some(isShown))
  }

  /** A layout pass: the height difference and the estimated keyboard height it is compared with. */
  datatype Frame = Frame(heightDiff: int, threshold: int)

  /** The callbacks a series of layout passes makes. */
  function Callbacks(open: bool, frames: seq<Frame>): seq<bool>
    decreases |frames|
  {
    if frames == [] then []
    else
      var r := OnLayout(open, frames[0].heightDiff, frames[0].threshold);
      (if r.callback.Some? then [r.callback.value] else []) + Callbacks(r.open, frames[1..])
  }

  /** The remembered state after a series of layout passes. */
  function FinalOpen(open: bool, frames: seq<Frame>): bool
    decreases |frames|
  {
    if frames == [] then open
    else FinalOpen(OnLayout(open, frames[0].heightDiff, frames[0].threshold).open, frames[1..])
  }

  /** The callbacks start from the opposite of open and alternate. */
  predicate Alternating(open: bool, cs: seq<bool>) {
    (cs != [] ==> cs[0] != open) && forall k :: 0 < k < |cs| ==> cs[k] != cs[k - 1]
  }

  /**
   * Edge detection: the callbacks alternate between shown and hidden,
   * starting from the change away from the state first remembered, and the
   * last one reports the state remembered at the end.
   */
  lemma {:induction false} CallbacksAlternate(open: bool, frames: seq<Frame>)
    ensures Alternating(open, Callbacks(open, frames))
    ensures Callbacks(open, frames) != [] ==> Callbacks(open, frames)[|Callbacks(open, frames)| - 1] == FinalOpen(open, frames)
    ensures Callbacks(open, frames) == [] ==> FinalOpen(open, frames) == open
    decreases |frames|
  {
    if frames != [] {
      var r := OnLayout(open, frames[0].heightDiff, frames[0].threshold);
      var rest := Callbacks(r.open, frames[1..]);
      CallbacksAlternate(r.open, frames[1..]);
      if r.callback.Some? {
        var cs := [r.callback.value] + rest;
        assert Callbacks(open, frames) == cs;
        forall k | 0 < k < |cs| ensures cs[k] != cs[k - 1] {
          if k > 1 {
            assert cs[k] == rest[k - 1] && cs[k - 1] == rest[k - 2];
          }
        }
      } else {
        assert Callbacks(open, frames) == rest;
      }
    }
  }

  /** The anonymous global-layout listener, with the keyboard state it remembers. */
  class KeyboardVisibilityListener {
    var alreadyOpen: bool

    constructor ()
      ensures !alreadyOpen
    {
      alreadyOpen := false;
    }

    /** onGlobalLayout: returns the visibility passed to onKeyboardVisibilityChanged, None when there is no call. */
    method OnGlobalLayout(heightDiff: int, estimatedKeyboardHeight: int) returns (callback: Option<bool>)
      modifies this
      ensures Layout(alreadyOpen, callback) == OnLayout(old(alreadyOpen), heightDiff, estimatedKeyboardHeight)
    {
      var isShown := heightDiff >= estimatedKeyboardHeight;
      if isShown == alreadyOpen {
        return None;
      }
      alreadyOpen := isShown;
      callback := Some(isShown);
    }
  }
}
