/**
 * The conversation loop of the chat client (index.js).
 *
 * The first line the user types is the persona: it becomes the one system
 * message the transcript starts with, unless it is the exit command. While
 * the next line typed is not the exit command, a round appends it as a user
 * message, sends the whole transcript to the completion service, and appends
 * the service's message only when one came back. The transcript is handled
 * as an append-only log.
 *
 * The service is a parameter: a function from the transcript sent to the
 * outcome of the call. Every request is longer than the one before it, so
 * any sequence of outcomes over a session is one such function. The lines
 * the user types are a sequence of strings; the session also ends when they
 * run out.
 */
module Chat {
  import opened Wrappers
  import opened Reflow

  /** The input that ends the session. */
  const ExitCommand: string := "exit"

  /** The role of the persona message. */
  const SystemRole: string := "system"

  /** The role of the messages the user types. */
  const UserRole: string := "user"

  /** One entry of the transcript, as the completion service receives it. */
  datatype Message = Message(role: string, content: string)

  /** How a call to the completion service ends. */
  datatype Outcome =
    | Success(msg: Message)     // the response carries a message
    | Empty                     // the response carries no message
    | Failure(error: string)    // the call threw; the error's message

  /** What the user is shown after a round, before the next prompt. */
  datatype Display =
    | Reply(text: string)                    // the reflowed content of the message
    | NoResponse                             // "No response, try asking again"
    | SomethingWentWrong(diagnostic: string) // the error's message, then "Something went wrong, try asking again"

  /** The completion service: the outcome of sending a transcript. */
  type Service = seq<Message> -> Outcome

  /** The message a round appends for what the user typed. */
  function UserTurn(input: string): Message
  {
    Message(UserRole, input)
  }

  /** The message the transcript starts with. */
  function PersonaMessage(persona: string): Message
  {
    Message(SystemRole, persona)
  }

  // ---------------------------------------------------------------------------
  // One round

  /**
   * The transcript after one round: the user's message is appended and the
   * transcript is sent; a success appends the message that came back, an
   * empty response or a failure leaves the user's message as the last entry.
   */
  function AfterRound(t: seq<Message>, input: string, service: Service): (r: seq<Message>)
    ensures t + [UserTurn(input)] <= r
    ensures |r| == |t| + 1 + (if service(t + [UserTurn(input)]).Success? then 1 else 0)
    ensures service(t + [UserTurn(input)]).Success? ==> r[|t| + 1] == service(t + [UserTurn(input)]).msg
  {
    var sent := t + [UserTurn(input)];
    match service(sent)
    case Success(m) => sent + [m]
    case _ => sent
  }

  /** What the user is shown for an outcome: a message's content is passed through `formatOutput`. */
  function Shown(outcome: Outcome, fitOutputToScreen: bool, maxLineLength: nat): (d: Display)
    requires fitOutputToScreen ==> maxLineLength >= 1
    ensures d.Reply? <==> outcome.Success?
    ensures d.Reply? ==> BreaksOnlyWhitespace(outcome.msg.content, d.text)
    ensures d.Reply? && fitOutputToScreen ==> AllLinesFit(d.text, maxLineLength)
    ensures d.SomethingWentWrong? <==> outcome.Failure?
    ensures d.SomethingWentWrong? ==> d.diagnostic == outcome.error
  {
    match outcome
    case Success(m) => Reply(FormatOutput(m.content, fitOutputToScreen, maxLineLength))
    case Empty => NoResponse
    case Failure(e) => SomethingWentWrong(e)
  }

  // ---------------------------------------------------------------------------
  // The loop

  /** How many rounds the loop runs on the given inputs: up to the first exit command, or all of them. */
  function FirstExit(inputs: seq<string>): (r: nat)
    ensures r <= |inputs|
    ensures forall j :: 0 <= j < r ==> inputs[j] != ExitCommand
    ensures r < |inputs| ==> inputs[r] == ExitCommand
  {
    if inputs == [] || inputs[0] == ExitCommand then 0 else 1 + FirstExit(inputs[1..])
  }

  /**
   * The transcript once the loop has run from transcript t over the inputs.
   * It extends t, by one or two messages per round.
   */
  function Converse(t: seq<Message>, inputs: seq<string>, service: Service): (r: seq<Message>)
    ensures t <= r
    ensures |t| + FirstExit(inputs) <= |r| <= |t| + 2 * FirstExit(inputs)
    decreases |inputs|
  {
    if inputs == [] || inputs[0] == ExitCommand then t
    else Converse(AfterRound(t, inputs[0], service), inputs[1..], service)
  }

  /** req was sent after transcript t: it extends t and ends with the user's message input. */
  predicate SentAfter(t: seq<Message>, req: seq<Message>, input: string)
  {
    t <= req && |req| > |t| && req[|req| - 1] == UserTurn(input)
  }

  /**
   * The transcripts the loop sends, one per round. Each extends t and ends
   * with the user's message of its round.
   */
  function Requests(t: seq<Message>, inputs: seq<string>, service: Service): (r: seq<seq<Message>>)
    ensures |r| == FirstExit(inputs)
    ensures forall j :: 0 <= j < |r| ==> SentAfter(t, r[j], inputs[j])
    decreases |inputs|
  {
    if inputs == [] || inputs[0] == ExitCommand then []
    else
      var t' := AfterRound(t, inputs[0], service);
      var rest := Requests(t', inputs[1..], service);
      RequestsCons(t, t', inputs, rest);
      [t + [UserTurn(inputs[0])]] + rest
  }

  /** Putting the first request, sent after t, in front of the requests sent after t' extends the shape to the whole list. */
  lemma RequestsCons(t: seq<Message>, t': seq<Message>, inputs: seq<string>, rest: seq<seq<Message>>)
    requires |rest| < |inputs| && t + [UserTurn(inputs[0])] <= t'
    requires forall j :: 0 <= j < |rest| ==> SentAfter(t', rest[j], inputs[1..][j])
    ensures forall j :: 0 <= j < 1 + |rest| ==> SentAfter(t, ([t + [UserTurn(inputs[0])]] + rest)[j], inputs[j])
  {
    var r := [t + [UserTurn(inputs[0])]] + rest;
    forall j | 0 <= j < 1 + |rest| ensures SentAfter(t, r[j], inputs[j]) {
      if j > 0 {
        assert r[j] == rest[j - 1] && inputs[1..][j - 1] == inputs[j];
        PrefixTransitive(t, t', rest[j - 1]);
      }
    }
  }

  /** The prefix order is transitive. */
  lemma PrefixTransitive(a: seq<Message>, b: seq<Message>, c: seq<Message>)
    requires a <= b && b <= c
    ensures a <= c
  {
    assert c[..|a|] == b[..|a|];
  }

  /** The whole session: no transcript when the persona prompt is answered with the exit command. */
  function Session(inputs: seq<string>, service: Service): (r: Option<seq<Message>>)
    ensures r.None? <==> inputs == [] || inputs[0] == ExitCommand
    ensures r.Some? ==> |r.value| >= 1 && r.value[0] == PersonaMessage(inputs[0])
  {
    if inputs == [] || inputs[0] == ExitCommand then None
    else Some(Converse([PersonaMessage(inputs[0])], inputs[1..], service))
  }

  /** The transcripts sent over the whole session: none when there is no transcript. */
  function SessionRequests(inputs: seq<string>, service: Service): (r: seq<seq<Message>>)
    ensures inputs == [] || inputs[0] == ExitCommand ==> r == []
    ensures inputs != [] && inputs[0] != ExitCommand ==> |r| == FirstExit(inputs[1..])
  {
    if inputs == [] || inputs[0] == ExitCommand then []
    else Requests([PersonaMessage(inputs[0])], inputs[1..], service)
  }

  /** What the user is shown in each round of the loop from transcript t over the inputs. */
  function Displays(t: seq<Message>, inputs: seq<string>, service: Service, fitOutputToScreen: bool, maxLineLength: nat)
    : (r: seq<Display>)
    requires fitOutputToScreen ==> maxLineLength >= 1
    ensures |r| == FirstExit(inputs)
    decreases |inputs|
  {
    if inputs == [] || inputs[0] == ExitCommand then []
    else
      [Shown(service(t + [UserTurn(inputs[0])]), fitOutputToScreen, maxLineLength)]
        + Displays(AfterRound(t, inputs[0], service), inputs[1..], service, fitOutputToScreen, maxLineLength)
  }

  /** What the user is shown over the whole session. */
  function SessionDisplays(inputs: seq<string>, service: Service, fitOutputToScreen: bool, maxLineLength: nat)
    : (r: seq<Display>)
    requires fitOutputToScreen ==> maxLineLength >= 1
    ensures |r| == |SessionRequests(inputs, service)|
  {
    if inputs == [] || inputs[0] == ExitCommand then []
    else Displays([PersonaMessage(inputs[0])], inputs[1..], service, fitOutputToScreen, maxLineLength)
  }

  // ---------------------------------------------------------------------------
  // Properties of the loop

  /** Running the first j rounds and then the rest is running them all. */
  lemma {:induction false} ConverseSplit(t: seq<Message>, inputs: seq<string>, j: nat, service: Service)
    requires j <= FirstExit(inputs)
    ensures Converse(t, inputs, service) == Converse(Converse(t, inputs[..j], service), inputs[j..], service)
    decreases j
  {
    if j == 0 {
      assert inputs[..0] == [];
      assert inputs[0..] == inputs;
    } else {
      var t' := AfterRound(t, inputs[0], service);
      ConversePrefixTail(t, inputs, j, service);
      ConverseSplit(t', inputs[1..], j - 1, service);
      assert inputs[1..][j - 1..] == inputs[j..];
    }
  }

  /** Request j > 0 of the loop from t is request j - 1 of the loop from the transcript after the first round. */
  lemma RequestsTail(t: seq<Message>, inputs: seq<string>, j: nat, service: Service)
    requires 0 < j < |Requests(t, inputs, service)|
    ensures Requests(t, inputs, service)[j] == Requests(AfterRound(t, inputs[0], service), inputs[1..], service)[j - 1]
  {
  }

  /** The first j rounds from t are the first round followed by the next j - 1 rounds. */
  lemma ConversePrefixTail(t: seq<Message>, inputs: seq<string>, j: nat, service: Service)
    requires 0 < j <= |inputs| && inputs[0] != ExitCommand
    ensures Converse(t, inputs[..j], service) == Converse(AfterRound(t, inputs[0], service), inputs[1..][..j - 1], service)
  {
    assert inputs[..j][0] == inputs[0];
    assert inputs[..j][1..] == inputs[1..][..j - 1];
  }

  /** Request j is the transcript after the first j rounds, then the user's message of round j. */
  lemma {:induction false} RequestsAreTranscriptsSoFar(t: seq<Message>, inputs: seq<string>, service: Service)
    ensures forall j :: 0 <= j < |Requests(t, inputs, service)| ==>
      Requests(t, inputs, service)[j] == Converse(t, inputs[..j], service) + [UserTurn(inputs[j])]
    decreases |inputs|
  {
    var r := Requests(t, inputs, service);
    if |r| > 0 {
      RequestsAreTranscriptsSoFar(AfterRound(t, inputs[0], service), inputs[1..], service);
      forall j | 0 <= j < |r|
        ensures r[j] == Converse(t, inputs[..j], service) + [UserTurn(inputs[j])]
      {
        if j == 0 {
          assert inputs[..0] == [];
        } else {
          RequestsTail(t, inputs, j, service);
          ConversePrefixTail(t, inputs, j, service);
          assert inputs[1..][j - 1] == inputs[j];
        }
      }
    }
  }

  /** Every transcript sent is a prefix of the final transcript: nothing sent is ever rewritten. */
  lemma RequestsArePrefixes(t: seq<Message>, inputs: seq<string>, service: Service)
    ensures forall j :: 0 <= j < |Requests(t, inputs, service)| ==>
      Requests(t, inputs, service)[j] <= Converse(t, inputs, service)
  {
    RequestsAreTranscriptsSoFar(t, inputs, service);
    forall j | 0 <= j < |Requests(t, inputs, service)|
      ensures Requests(t, inputs, service)[j] <= Converse(t, inputs, service)
    {
      var x := Converse(t, inputs[..j], service);
      ConverseSplit(t, inputs, j, service);
      assert inputs[j..][0] == inputs[j];
      assert inputs[j..][1..] == inputs[j + 1..];
      var y := AfterRound(x, inputs[j], service);
      assert Converse(x, inputs[j..], service) == Converse(y, inputs[j + 1..], service);
    }
  }

  /**
   * The user messages a session records are its inputs after the persona, in
   * order, up to the first exit command: the exit command is never recorded,
   * and nothing is sent when the persona prompt is answered with it.
   */
  lemma SessionSendsInputsBeforeExit(inputs: seq<string>, service: Service)
    ensures inputs == [] || inputs[0] == ExitCommand ==> SessionRequests(inputs, service) == []
    ensures forall j :: 0 <= j < |SessionRequests(inputs, service)| ==>
      && |SessionRequests(inputs, service)[j]| >= 2
      && SessionRequests(inputs, service)[j][0] == PersonaMessage(inputs[0])
      && SessionRequests(inputs, service)[j][|SessionRequests(inputs, service)[j]| - 1] == UserTurn(inputs[j + 1])
      && inputs[j + 1] != ExitCommand
      && SessionRequests(inputs, service)[j] <= Session(inputs, service).value
  {
    if inputs != [] && inputs[0] != ExitCommand {
      var t := [PersonaMessage(inputs[0])];
      RequestsArePrefixes(t, inputs[1..], service);
      assert forall j :: 0 <= j < FirstExit(inputs[1..]) ==> inputs[1..][j] == inputs[j + 1];
    }
  }

  /** The first request is the persona, then the first message typed. */
  lemma FirstRequest(inputs: seq<string>, service: Service)
    requires |inputs| >= 2 && inputs[0] != ExitCommand && inputs[1] != ExitCommand
    ensures SessionRequests(inputs, service)[0] == [PersonaMessage(inputs[0]), UserTurn(inputs[1])]
  {
    assert inputs[1..][0] == inputs[1];
  }

  /** What the user is shown in round j is the outcome of the request made in round j. */
  lemma {:induction false} DisplaysAnswerRequests(t: seq<Message>, inputs: seq<string>, service: Service,
                                                  fitOutputToScreen: bool, maxLineLength: nat)
    requires fitOutputToScreen ==> maxLineLength >= 1
    ensures forall j :: 0 <= j < |Displays(t, inputs, service, fitOutputToScreen, maxLineLength)| ==>
      Displays(t, inputs, service, fitOutputToScreen, maxLineLength)[j]
        == Shown(service(Requests(t, inputs, service)[j]), fitOutputToScreen, maxLineLength)
    decreases |inputs|
  {
    if inputs != [] && inputs[0] != ExitCommand {
      var t' := AfterRound(t, inputs[0], service);
      DisplaysAnswerRequests(t', inputs[1..], service, fitOutputToScreen, maxLineLength);
      forall j | 0 < j < |Displays(t, inputs, service, fitOutputToScreen, maxLineLength)|
        ensures Displays(t, inputs, service, fitOutputToScreen, maxLineLength)[j]
          == Shown(service(Requests(t, inputs, service)[j]), fitOutputToScreen, maxLineLength)
      {
        DisplaysTail(t, inputs, j, service, fitOutputToScreen, maxLineLength);
      }
    }
  }

  /** Display j > 0 of the loop from t is display j - 1 of the loop from the transcript after the first round. */
  lemma DisplaysTail(t: seq<Message>, inputs: seq<string>, j: nat, service: Service,
                     fitOutputToScreen: bool, maxLineLength: nat)
    requires fitOutputToScreen ==> maxLineLength >= 1
    requires 0 < j < |Displays(t, inputs, service, fitOutputToScreen, maxLineLength)|
    ensures Displays(t, inputs, service, fitOutputToScreen, maxLineLength)[j]
      == Displays(AfterRound(t, inputs[0], service), inputs[1..], service, fitOutputToScreen, maxLineLength)[j - 1]
    ensures Requests(t, inputs, service)[j] == Requests(AfterRound(t, inputs[0], service), inputs[1..], service)[j - 1]
  {
  }

  /** Moving one display from the pending ones to the shown ones keeps their concatenation. */
  lemma DisplaysSnoc(shown: seq<Display>, d: Display, pending: seq<Display>)
    ensures shown + ([d] + pending) == (shown + [d]) + pending
  {
  }

  // ---------------------------------------------------------------------------
  // The client

  /** The running client: the persona it was created with and the transcript it sends. */
  class Conversation {
    const persona: string
    var messages: seq<Message>

    /** The transcript starts with the persona message. */
    ghost predicate Valid()
      reads this
    {
      |messages| >= 1 && messages[0] == PersonaMessage(persona)
    }

    /** The transcript seeded with the persona as its one system message. */
    constructor(persona: string)
      ensures this.persona == persona
      ensures messages == [PersonaMessage(persona)]
      ensures Valid()
    {
      this.persona := persona;
      messages := [PersonaMessage(persona)];
    }

    /**
     * One pass of the loop body for the input the user typed: the user
     * message is pushed, the transcript is sent, and the reply is pushed
     * only on a success. Returns what the user is shown.
     */
    method Round(input: string, service: Service, fitOutputToScreen: bool, maxLineLength: nat) returns (shown: Display)
      requires Valid()
      requires fitOutputToScreen ==> maxLineLength >= 1
      modifies this
      ensures messages == AfterRound(old(messages), input, service)
      ensures shown == Shown(service(old(messages) + [UserTurn(input)]), fitOutputToScreen, maxLineLength)
      ensures Valid()
    {
      messages := messages + [UserTurn(input)];
      var outcome := service(messages);
      match outcome {
        case Success(m) =>
          messages := messages + [m];
          shown := Reply(FormatOutput(m.content, fitOutputToScreen, maxLineLength));
        case Empty =>
          shown := NoResponse;
        case Failure(e) =>
          shown := SomethingWentWrong(e);
      }
    }
  }

  /**
   * The loop of the program over the lines the user types after the persona:
   * rounds until the exit command or the end of the input. Returns what the
   * user was shown in each round.
   */
  method Loop(chat: Conversation, inputs: seq<string>, service: Service, fitOutputToScreen: bool, maxLineLength: nat)
    returns (shown: seq<Display>)
    requires chat.Valid()
    requires fitOutputToScreen ==> maxLineLength >= 1
    modifies chat
    ensures chat.messages == Converse(old(chat.messages), inputs, service)
    ensures shown == Displays(old(chat.messages), inputs, service, fitOutputToScreen, maxLineLength)
    ensures chat.Valid()
  {
    ghost var start := chat.messages;
    shown := [];
    var rest := inputs;
    while rest != [] && rest[0] != ExitCommand
      invariant chat.Valid()
      invariant Converse(chat.messages, rest, service) == Converse(start, inputs, service)
      invariant shown + Displays(chat.messages, rest, service, fitOutputToScreen, maxLineLength)
             == Displays(start, inputs, service, fitOutputToScreen, maxLineLength)
      decreases |rest|
    {
      var d := chat.Round(rest[0], service, fitOutputToScreen, maxLineLength);
      DisplaysSnoc(shown, d, Displays(chat.messages, rest[1..], service, fitOutputToScreen, maxLineLength));
      shown := shown + [d];
      rest := rest[1..];
    }
  }

  /**
   * The program: the persona prompt, then the loop. Returns the final
   * transcript, None when the persona prompt was answered with the exit
   * command, and what the user was shown in each round.
   */
  method RunSession(inputs: seq<string>, service: Service, fitOutputToScreen: bool, maxLineLength: nat)
    returns (transcript: Option<seq<Message>>, shown: seq<Display>)
    requires fitOutputToScreen ==> maxLineLength >= 1
    ensures transcript == Session(inputs, service)
    ensures shown == SessionDisplays(inputs, service, fitOutputToScreen, maxLineLength)
  {
    if inputs == [] || inputs[0] == ExitCommand {
      return None, [];
    }
    var chat := new Conversation(inputs[0]);
    shown := Loop(chat, inputs[1..], service, fitOutputToScreen, maxLineLength);
    transcript := Some(chat.messages);
  }
}
