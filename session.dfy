/**
 * The chat session's state and the handlers that change it: `chatHistory`,
 * the busy state that `toggleBusy` shows on the send and stop buttons, and the
 * in-flight `controller`.
 *
 * The submit handler awaits up to three times: `fetch`, then `res.text()` or
 * `res.json()`. No session state changes between the first await and the
 * last, so `Begin` is everything before the `fetch` and `Complete` everything
 * after the last await, ending with the `finally` block. The network's answer
 * is the `Outcome` given to `Complete`. `Submit` runs both with nothing in
 * between, which is how the model treats one submission.
 */
module ChatSession {
  import opened Wrappers
  import opened RequestBuilder

  /** How the request ended, as the `try`/`catch` of the submit handler tells them apart. */
  datatype Outcome =
    | Replied(reply: string)   // `res.ok`, and `res.json()` gave `{ text: reply }`
    | Rejected(body: string)   // not `res.ok`; `res.text()` gave `body`
    | Aborted                  // an `AbortError` was thrown
    | Failed                   // any other error was thrown

  /** An `AbortController`: whether `abort()` has been called on it. */
  datatype Controller = Controller(aborted: bool)

  const ErrorPrefix: string := "Error: "
  const RequestErrorText: string := "Request error."

  /** The history is a run of complete exchanges: user, assistant, user, assistant, ... */
  predicate Paired(h: seq<Message>)
  {
    |h| % 2 == 0 && forall i :: 0 <= i < |h| ==> h[i].role == (if i % 2 == 0 then User else Assistant)
  }

  /** The history after a submission of `text` that ended with `outcome`. */
  function HistoryAfter(history: seq<Message>, text: string, outcome: Outcome): seq<Message>
  {
    if outcome.Replied? then history + [Message(User, text), Message(Assistant, outcome.reply)]
    else history
  }

  /** The new text of the assistant's slot, or `None` when it keeps the placeholder text it was given when the handler began. */
  function SlotAfter(outcome: Outcome): Option<string>
  {
    match outcome
    case Replied(reply) => Some(reply)
    case Rejected(body) => Some(ErrorPrefix + body)
    case Aborted => None
    case Failed => Some(RequestErrorText)
  }

  /** Appending one exchange keeps the history paired. */
  lemma PairedExtend(h: seq<Message>, question: string, answer: string)
    requires Paired(h)
    ensures Paired(h + [Message(User, question), Message(Assistant, answer)])
  {
    var h' := h + [Message(User, question), Message(Assistant, answer)];
    forall i | 0 <= i < |h'| ensures h'[i].role == (if i % 2 == 0 then User else Assistant) {
      if i >= |h| {
        assert i == |h| || i == |h| + 1;
      }
    }
  }

  /**
   * A submission either leaves the history as it was or adds exactly the user
   * message and the reply, in that order; it adds them exactly when the request
   * was answered, and a paired history stays paired.
   */
  lemma HistoryAfterIsAtomic(h: seq<Message>, text: string, outcome: Outcome)
    ensures var h' := HistoryAfter(h, text, outcome);
            (h' == h <==> !outcome.Replied?)
            && (outcome.Replied? ==> h' == h + [Message(User, text), Message(Assistant, outcome.reply)])
            && (Paired(h) ==> Paired(h'))
  {
    if outcome.Replied? {
      assert |HistoryAfter(h, text, outcome)| == |h| + 2;
      if Paired(h) {
        PairedExtend(h, text, outcome.reply);
      }
    }
  }

  /** Only an abort leaves the slot alone; an error response shows its body after `Error: `. */
  lemma SlotAfterCases(outcome: Outcome)
    ensures SlotAfter(outcome).None? <==> outcome.Aborted?
    ensures outcome.Rejected? ==> SlotAfter(outcome).value[..|ErrorPrefix|] == ErrorPrefix
                                  && SlotAfter(outcome).value[|ErrorPrefix|..] == outcome.body
  {
  }

  /** The user messages and replies of the answered submissions in `steps`, in order. */
  function Exchanges(steps: seq<(string, Outcome)>): seq<Message>
  {
    if steps == [] then []
    else
      var (text, outcome) := steps[0];
      (if outcome.Replied? then [Message(User, text), Message(Assistant, outcome.reply)] else [])
      + Exchanges(steps[1..])
  }

  /** The history after the submissions `steps`, one after another. */
  function Replay(history: seq<Message>, steps: seq<(string, Outcome)>): seq<Message>
    decreases |steps|
  {
    if steps == [] then history
    else Replay(HistoryAfter(history, steps[0].0, steps[0].1), steps[1..])
  }

  /**
   * Over any run of submissions the history grows by exactly the exchanges
   * that were answered, in order; failed, rejected and aborted ones leave
   * nothing behind. The exchanges themselves are always paired.
   */
  lemma {:induction false} ReplayAppendsExchanges(history: seq<Message>, steps: seq<(string, Outcome)>)
    ensures Replay(history, steps) == history + Exchanges(steps)
    ensures Paired(Exchanges(steps))
    decreases |steps|
  {
    if steps != [] {
      var (text, outcome) := steps[0];
      var first := if outcome.Replied? then [Message(User, text), Message(Assistant, outcome.reply)] else [];
      ReplayAppendsExchanges(HistoryAfter(history, text, outcome), steps[1..]);
      assert HistoryAfter(history, text, outcome) == history + first;
      assert history + first + Exchanges(steps[1..]) == history + (first + Exchanges(steps[1..]));
      assert Paired(first + Exchanges(steps[1..])) by {
        var rest := Exchanges(steps[1..]);
        if outcome.Replied? {
          forall i | 0 <= i < |first + rest|
            ensures (first + rest)[i].role == (if i % 2 == 0 then User else Assistant)
          {
            if i >= 2 {
              assert (first + rest)[i] == rest[i - 2];
            }
          }
        } else {
          assert first + rest == rest;
        }
      }
    }
  }

  class Session {
    var history: seq<Message>
    var busy: bool
    var controller: Option<Controller>

    /** The history is paired, and the buttons show busy exactly while a controller exists. */
    ghost predicate Valid()
      reads this
    {
      Paired(history) && busy == controller.Some?
    }

    /** The state at page load: `controller = null`, `chatHistory = []`, nothing in flight. */
    constructor ()
      ensures Valid()
      ensures history == [] && !busy && controller == None
    {
      history := [];
      busy := false;
      controller := None;
    }

    /** The clear button: the history becomes empty whatever it held; nothing else changes. */
    method Clear()
      requires Valid()
      modifies this`history
      ensures Valid()
      ensures history == []
      ensures busy == old(busy) && controller == old(controller)
    {
      history := [];
    }

    /** The stop button: aborts the controller if there is one, and does nothing otherwise. */
    method Stop()
      requires Valid()
      modifies this`controller
      ensures Valid()
      ensures controller == if old(controller).Some? then Some(Controller(true)) else None
      ensures history == old(history) && busy == old(busy)
    {
      if controller.Some? {
        controller := Some(Controller(true));
      }
    }

    /**
     * The submit handler up to the request: with an all-whitespace input it
     * returns with nothing changed and no payload; otherwise it builds the
     * payload from a copy of the history and marks a request in flight.
     */
    method Begin(input: string, isSpace: char -> bool, selectedModel: string,
                 temperature: Temperature, system: string) returns (p: Option<Payload>)
      requires Valid()
      modifies this`busy, this`controller
      ensures Valid()
      ensures p == BuildPayload(input, isSpace, selectedModel, temperature, system, history)
      ensures history == old(history)
      ensures p.None? ==> busy == old(busy) && controller == old(controller)
      ensures p.Some? ==> busy && controller == Some(Controller(false))
    {
      var text := Trim(input, isSpace);
      if text == [] {
        return None;
      }
      var model := selectedModel;
      if model !in AllowedGeminiModels {
        model := FallbackModel;
      }
      p := Some(Payload(Provider, model, temperature, SystemPrompt(system), history + [Message(User, text)]));
      controller := Some(Controller(false));
      busy := true;
    }

    /**
     * The submit handler after the request, for the user message `text`: on a
     * reply the history gains the user message and then the reply; on every
     * other outcome it keeps what it had. Whatever the outcome, the `finally`
     * block leaves the session idle. `slot` is the assistant slot's new text.
     */
    method Complete(text: string, outcome: Outcome) returns (slot: Option<string>)
      requires Valid()
      modifies this`history, this`busy, this`controller
      ensures Valid()
      ensures history == HistoryAfter(old(history), text, outcome)
      ensures slot == SlotAfter(outcome)
      ensures !busy && controller == None
    {
      match outcome {
        case Rejected(body) =>
          slot := Some(ErrorPrefix + body);
          busy := false;
        case Replied(reply) =>
          slot := Some(reply);
          PairedExtend(history, text, reply);
          history := history + [Message(User, text)];
          history := history + [Message(Assistant, reply)];
        case Aborted =>
          slot := None;
        case Failed =>
          slot := Some(RequestErrorText);
      }
      busy := false;
      controller := None;
    }

    /**
     * One whole submission with the given outcome. An all-whitespace input
     * changes nothing and sends nothing; any other input sends the payload
     * built from the old history and leaves the session idle, with the history
     * extended by the exchange only if the request was answered.
     */
    method Submit(input: string, isSpace: char -> bool, selectedModel: string,
                  temperature: Temperature, system: string, outcome: Outcome)
      returns (p: Option<Payload>, slot: Option<string>)
      requires Valid()
      modifies this`history, this`busy, this`controller
      ensures Valid()
      ensures p == BuildPayload(input, isSpace, selectedModel, temperature, system, old(history))
      ensures p.None? ==> history == old(history) && busy == old(busy) && controller == old(controller)
      ensures p.None? ==> slot == None
      ensures p.Some? ==> history == HistoryAfter(old(history), Trim(input, isSpace), outcome)
      ensures p.Some? ==> !busy && controller == None && slot == SlotAfter(outcome)
    {
      p := Begin(input, isSpace, selectedModel, temperature, system);
      slot := None;
      if p.Some? {
        slot := Complete(Trim(input, isSpace), outcome);
      }
    }
  }

}
