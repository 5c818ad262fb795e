/** `useFadeIn`: a one-shot trigger that marks an element visible the first
    time an observer notification reports it intersecting, and then stops
    observing it. The callback destructures the batch as `([entry])`, so only
    the first entry of each batch is looked at; a batch is given here as the
    `isIntersecting` flags of its entries. */
module FadeIn {

  /** The visible flag after one batch. */
  function StepVisible(visible: bool, batch: seq<bool>): (r: bool)
    requires |batch| > 0
    ensures visible ==> r
    ensures !batch[0] ==> r == visible
  {
    visible || batch[0]
  }

  /** Every batch the observer delivers has at least one entry. */
  predicate Delivered(batches: seq<seq<bool>>) {
    forall b :: 0 <= b < |batches| ==> |batches[b]| > 0
  }

  /** The visible flag after a series of batches. */
  function VisibleAfter(visible: bool, batches: seq<seq<bool>>): (r: bool)
    requires Delivered(batches)
    ensures !visible && (forall b :: 0 <= b < |batches| ==> !batches[b][0]) ==> !r
    decreases |batches|
  {
    if batches == [] then visible
    else VisibleAfter(StepVisible(visible, batches[0]), batches[1..])
  }

  /** Starting hidden, the element is visible exactly when some batch's
      first entry reported it intersecting. */
  lemma {:induction false} VisibleIffSomeFirstEntryIntersects(visible: bool, batches: seq<seq<bool>>)
    requires Delivered(batches)
    ensures VisibleAfter(visible, batches) <==> visible || exists b :: 0 <= b < |batches| && batches[b][0]
    decreases |batches|
  {
    if batches != [] {
      var rest := batches[1..];
      VisibleIffSomeFirstEntryIntersects(StepVisible(visible, batches[0]), rest);
      if exists b :: 0 <= b < |rest| && rest[b][0] {
        var b :| 0 <= b < |rest| && rest[b][0];
        assert batches[b + 1][0];
      }
      if exists b :: 0 <= b < |batches| && batches[b][0] {
        var b :| 0 <= b < |batches| && batches[b][0];
        if b > 0 {
          assert rest[b - 1][0];
        }
      }
    }
  }

  /** Once visible, always visible, whatever notifications follow. */
  lemma {:induction false} VisibleStays(batches: seq<seq<bool>>)
    requires Delivered(batches)
    ensures VisibleAfter(true, batches)
    decreases |batches|
  {
    if batches != [] {
      VisibleStays(batches[1..]);
    }
  }

  /** Only the first entry of a batch counts: an intersecting entry behind a
      non-intersecting one is ignored. */
  lemma FirstEntryOnly()
    ensures !StepVisible(false, [false, true])
  {
  }

  /** The element's fade-in state: whether it carries the visible class and
      whether the observer still watches it. */
  class FadeInElement {
    var visible: bool
    var observed: bool

    /** The effect at mount: an element that exists is observed; a missing
        one (`ref.current` null) gets no observer. */
    constructor (attached: bool)
      ensures !visible && observed == attached
    {
      visible := false;
      observed := attached;
    }

    /** The observer callback. The browser delivers it only while the
        element is observed: never for a missing element, and not after
        `unobserve` or `disconnect`. */
    method OnEntries(batch: seq<bool>)
      requires observed && |batch| > 0
      modifies this
      ensures visible == StepVisible(old(visible), batch)
      ensures observed == (old(observed) && !batch[0])
    {
      if batch[0] {
        visible := true;
        observed := false;
      }
    }

    /** The effect's cleanup when the component unmounts. */
    method Disconnect()
      modifies this
      ensures visible == old(visible) && !observed
    {
      observed := false;
    }
  }
}
