/**
  The tooltip of content.js as a state machine. Its state is whether it is
  visible, the text it shows and whether the 5-second auto-hide timer is armed;
  DOM events, the reply of the background script, a broken message channel and
  the firing of the timer are the inputs.
 */
module Tooltip {
  import opened Base
  import opened Json
  import Selection
  import LookupService

  /** The observable state of the tooltip element and its pending timeout. */
  datatype State = State(visible: bool, text: string, timerArmed: bool)

  /** Before the first selection no tooltip exists; it behaves as a hidden one. */
  const Initial: State := State(false, "", false)

  const LoadingText: string := "Loading..."
  const ReloadedText: string := "Error: Extension reloaded. Please select again."

  /** `No definition found for "${text}"`. */
  function NotFoundText(word: string): string {
    "No definition found for \"" + word + "\""
  }

  /** `showTooltip` up to the message send: the tooltip becomes visible, shows the
      loading text and no auto-hide is pending, whatever it was doing before. */
  function Show(t: State): (t': State)
    ensures t'.visible && t'.text == LoadingText && !t'.timerArmed
  {
    State(true, LoadingText, false)
  }

  /** `hideTooltip`: invisible, no pending auto-hide, text kept. */
  function Hide(t: State): (t': State)
    ensures !t'.visible && !t'.timerArmed && t'.text == t.text
  {
    t.(visible := false, timerArmed := false)
  }

  /** The text a reply for `word` puts in a visible tooltip: a truthy `definition`
      as `textContent` renders it, otherwise the not-found message. */
  function ReplyText(word: string, response: LookupService.Response): (text: string)
    ensures response.Definition? && Truthy(response.value) ==> text == ToText(response.value)
    ensures !(response.Definition? && Truthy(response.value)) ==> text == NotFoundText(word)
  {
    match response
    case Definition(v) => if Truthy(v) then ToText(v) else NotFoundText(word)
    case _ => NotFoundText(word)
  }

  /** The reply callback when the channel delivered a response for `word`: it is
      shown and the auto-hide re-armed only while the tooltip is visible; a hidden
      tooltip is left exactly as it is. */
  function OnReply(t: State, word: string, response: LookupService.Response): (t': State)
    ensures !t.visible ==> t' == t
    ensures t.visible ==> t' == State(true, ReplyText(word, response), true)
  {
    if t.visible then t.(text := ReplyText(word, response), timerArmed := true) else t
  }

  /** The reply callback when `chrome.runtime.lastError` is set: the reload message
      replaces the text whether or not the tooltip is visible. */
  function OnChannelError(t: State): (t': State)
    ensures t'.text == ReloadedText && t'.visible == t.visible && t'.timerArmed == t.timerArmed
  {
    t.(text := ReloadedText)
  }

  /** Everything that can happen to the tooltip. */
  datatype Event =
    | MouseUp(selection: string, onTooltip: bool, hasExtent: bool)  // `hasExtent`: the selection's rectangle has a non-zero width or height
    | MouseDown(onTooltip: bool)
    | Scroll
    | KeyDown
    | Reply(word: string, response: LookupService.Response)
    | ChannelError
    | TimerFired

  /** The tooltip after an event, and the word sent to the background script if
      the event started a lookup. */
  datatype Outcome = Outcome(tooltip: State, request: Option<string>)

  /** The `mouseup` listener: ignore clicks on the tooltip; show and request a
      lookup for an accepted selection that has a visible extent; hide for a
      rejected one. */
  function OnMouseUp(t: State, selection: string, onTooltip: bool, hasExtent: bool): (o: Outcome)
    ensures o.request.Some? <==> !onTooltip && Selection.Accepts(Selection.Sanitize(selection)) && hasExtent
    ensures o.request.Some? ==> o.request.value == Selection.Sanitize(selection) && o.tooltip == Show(t)
    ensures !onTooltip && !Selection.Accepts(Selection.Sanitize(selection)) ==> o.tooltip == Hide(t)
    ensures onTooltip ==> o == Outcome(t, None)
    ensures Selection.Accepts(Selection.Sanitize(selection)) && !hasExtent ==> o == Outcome(t, None)
  {
    if onTooltip then Outcome(t, None)
    else
      var word := Selection.Sanitize(selection);
      if Selection.Accepts(word) then
        if hasExtent then Outcome(Show(t), Some(word)) else Outcome(t, None)
      else Outcome(Hide(t), None)
  }

  /** One transition of the tooltip. */
  function Step(t: State, e: Event): (o: Outcome)
    ensures o.request.Some? ==> e.MouseUp?
    ensures e.Scroll? || e.KeyDown? || (e.MouseDown? && !e.onTooltip) ==> o.tooltip == Hide(t)
    ensures e.MouseDown? && e.onTooltip ==> o.tooltip == t
    ensures e.TimerFired? ==> o.tooltip == (if t.timerArmed then Hide(t) else t)
    ensures e.MouseUp? ==> o == OnMouseUp(t, e.selection, e.onTooltip, e.hasExtent)
    ensures e.Reply? ==> o.tooltip == OnReply(t, e.word, e.response)
    ensures e.ChannelError? ==> o.tooltip == OnChannelError(t)
  {
    match e
    case MouseUp(selection, onTooltip, hasExtent) => OnMouseUp(t, selection, onTooltip, hasExtent)
    case MouseDown(onTooltip) => Outcome(if onTooltip then t else Hide(t), None)
    case Scroll => Outcome(Hide(t), None)
    case KeyDown => Outcome(Hide(t), None)
    case Reply(word, response) => Outcome(OnReply(t, word, response), None)
    case ChannelError => Outcome(OnChannelError(t), None)
    case TimerFired => Outcome(if t.timerArmed then Hide(t) else t, None)
  }

  /** The auto-hide timer is armed only while the tooltip is visible. */
  predicate Consistent(t: State) {
    t.timerArmed ==> t.visible
  }

  /** Every transition keeps the tooltip consistent. */
  lemma StepKeepsConsistent(t: State, e: Event)
    requires Consistent(t)
    ensures Consistent(Step(t, e).tooltip)
  {
  }

  /** The tooltip after a sequence of events; it stays consistent throughout, and
      `Initial` is consistent, so every reachable tooltip is. */
  function Run(t: State, events: seq<Event>): (t': State)
    requires Consistent(t)
    ensures Consistent(t')
    decreases |events|
  {
    if events == [] then t
    else
      StepKeepsConsistent(t, events[0]);
      Run(Step(t, events[0]).tooltip, events[1..])
  }

  /** Hiding is idempotent. */
  lemma HideIdempotent(t: State)
    ensures Hide(Hide(t)) == Hide(t)
  {
  }

  /** A reply never shows an `{error}` message: it is displayed as "not found". */
  lemma ErrorShownAsNotFound(t: State, word: string, message: string)
    requires t.visible
    ensures OnReply(t, word, LookupService.Failure(message)).text == NotFoundText(word)
  {
  }

}
