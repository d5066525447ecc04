/**
 * `ActionConfirmationModal`: a type-to-confirm gate. The confirm button is
 * enabled only while the typed text equals the expected text exactly; cancel
 * only asks the page to close the modal and keeps the typed text.
 *
 * The expected text defaults to "supprimer définitivement" when the prop is
 * undefined; a `null` prop is kept, and since the typed text is always a string
 * the button then stays disabled.
 */
module ConfirmModal {
  import opened Js

  const DefaultExpectedText: string := "supprimer définitivement"

  /** The expected text after default-parameter resolution. */
  function Expected(prop: Nullable<string>): (e: Nullable<string>)
    ensures e.Present? <==> !prop.Null?
    ensures prop.Undefined? ==> e == Present(DefaultExpectedText)
    ensures prop.Present? ==> e == prop
  {
    if prop.Undefined? then Present(DefaultExpectedText) else prop
  }

  /** `disabled={confirmText !== expectedText}`, negated. */
  predicate ConfirmEnabled(text: string, prop: Nullable<string>) {
    Expected(prop) == Present(text)
  }

  datatype ModalEvent = Typed(value: string) | CancelClicked | ConfirmClicked

  /** What the modal asks of its page. */
  datatype Signal = CloseRequested | Confirmed

  /** One event: the typed text afterwards and the callback invoked, if any. A click on
      a disabled button does nothing. */
  function Step(text: string, e: ModalEvent, prop: Nullable<string>): (r: (string, Option<Signal>))
    ensures e.Typed? ==> r == (e.value, None)
    ensures !e.Typed? ==> r.0 == text
    ensures r.1 == Some(Confirmed) <==> e.ConfirmClicked? && ConfirmEnabled(text, prop)
    ensures r.1 == Some(CloseRequested) <==> e.CancelClicked?
  {
    match e
    case Typed(v) => (v, None)
    case CancelClicked => (text, Some(CloseRequested))
    case ConfirmClicked => (text, if ConfirmEnabled(text, prop) then Some(Confirmed) else None)
  }

  /** The text typed last in `events`, or `text` if nothing was typed. */
  function LastTyped(text: string, events: seq<ModalEvent>): string {
    if |events| == 0 then text
    else if events[|events| - 1].Typed? then events[|events| - 1].value
    else LastTyped(text, events[..|events| - 1])
  }

  /** The signals of a sequence of events, one per event, starting from the typed `text`. */
  function Signals(text: string, events: seq<ModalEvent>, prop: Nullable<string>): (r: seq<Option<Signal>>)
    ensures |r| == |events|
    decreases |events|
  {
    if |events| == 0 then []
    else
      var (t, out) := Step(text, events[0], prop);
      [out] + Signals(t, events[1..], prop)
  }

  /** One more event acts on the text typed last before it. */
  lemma {:induction false} TextAfterEvents(text: string, events: seq<ModalEvent>, e: ModalEvent, prop: Nullable<string>)
    ensures Signals(text, events + [e], prop) ==
      Signals(text, events, prop) + [Step(LastTyped(text, events), e, prop).1]
    decreases |events|
  {
    if |events| > 0 {
      var t := Step(text, events[0], prop).0;
      assert (events + [e])[1..] == events[1..] + [e];
      TextAfterEvents(t, events[1..], e, prop);
      LastTypedOfTail(text, events, prop);
    }
  }

  /** After the first event, the last typed text is the one of the remaining events,
      started from the text the first event left. */
  lemma {:induction false} LastTypedOfTail(text: string, events: seq<ModalEvent>, prop: Nullable<string>)
    requires |events| > 0
    ensures LastTyped(Step(text, events[0], prop).0, events[1..]) == LastTyped(text, events)
    decreases |events|
  {
    if |events| > 1 {
      assert events[1..][..|events[1..]| - 1] == events[..|events| - 1][1..];
      LastTypedOfTail(text, events[..|events| - 1], prop);
    }
  }

  /** In a session starting from an empty box, as at mount, a click on confirm reaches
      the page exactly when the text typed last before it is the expected text. The page
      keeps the modal mounted and the box keeps its text after a confirm, so a later
      session starts from that text (`Step`), not from an empty box. */
  lemma {:induction false} ConfirmExactlyAfterExpectedText(events: seq<ModalEvent>, prop: Nullable<string>, i: nat)
    requires i < |events| && events[i] == ConfirmClicked
    ensures Signals("", events, prop)[i] == Some(Confirmed) <==> Expected(prop) == Present(LastTyped("", events[..i]))
  {
    TextAfterEvents("", events[..i], ConfirmClicked, prop);
    assert events[..i + 1] == events[..i] + [ConfirmClicked];
    SignalsPrefix("", events, i + 1, prop);
  }

  /** The signals of a prefix of the events are a prefix of the signals. */
  lemma {:induction false} SignalsPrefix(text: string, events: seq<ModalEvent>, n: nat, prop: Nullable<string>)
    requires n <= |events|
    ensures Signals(text, events[..n], prop) == Signals(text, events, prop)[..n]
    decreases n
  {
    if n > 0 {
      var t := Step(text, events[0], prop).0;
      assert events[..n][1..] == events[1..][..n - 1];
      SignalsPrefix(t, events[1..], n - 1, prop);
    }
  }

  /** Case and accents matter, the default is reachable by typing it, a cancel keeps the
      text, and a `null` expected text can never be confirmed. */
  lemma GateExamples(text: string)
    ensures !ConfirmEnabled("Supprimer définitivement", Undefined)
    ensures !ConfirmEnabled("supprimer definitivement", Undefined)
    ensures ConfirmEnabled(Step("", Typed(DefaultExpectedText), Undefined).0, Undefined)
    ensures Step(text, CancelClicked, Undefined).0 == text
    ensures !ConfirmEnabled(text, Null)
    ensures !ConfirmEnabled("", Undefined)
  {
    assert "Supprimer définitivement"[0] != DefaultExpectedText[0];
    assert "supprimer definitivement"[11] != DefaultExpectedText[11];
  }
}
