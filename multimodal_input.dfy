/**
 * The submit/stop controller of the chat input box
 * (components/multimodal-input.tsx): the held conversation context, the abort
 * controller of the running request, the id of the assistant placeholder and
 * the local loading flag, and how submitting, stopping, failing and switching
 * chats change them and the message list.
 */
module MultimodalInput {
  import opened Wrappers
  import opened Text
  import opened Chat

  const DefaultModel: string := "deepseek-r1:32b"
  const TempPrefix: string := "temp-"

  /** The JSON body of the generate request; `context` is left out when `None`. */
  datatype Request = Request(model: string, prompt: string, context: Option<seq<int>>)

  /** `Date.now().toString()`: the id of a user message. */
  function UserId(now: nat): string {
    Decimal(now)
  }

  /** `` `temp-${Date.now()}` ``: the id of an assistant placeholder. */
  function TempId(now: nat): string {
    TempPrefix + Decimal(now)
  }

  /** Two placeholders created at different clock readings have different ids. */
  lemma TempIdInjective(a: nat, b: nat)
    requires TempId(a) == TempId(b)
    ensures a == b
  {
    assert Decimal(a) == TempId(a)[|TempPrefix|..];
    DecimalInjective(a, b);
  }

  /** Two user messages sent at different clock readings have different ids. */
  lemma UserIdInjective(a: nat, b: nat)
    requires UserId(a) == UserId(b)
    ensures a == b
  {
    DecimalInjective(a, b);
  }

  /** A user message id never collides with a placeholder id, whatever the two
      clock readings: one starts with a digit, the other with `t`. */
  lemma UserIdIsNotTempId(a: nat, b: nat)
    ensures UserId(a) != TempId(b)
  {
    assert TempId(b)[0] == 't';
    assert '0' <= UserId(a)[0] <= '9';
  }

  /** `contextRef.current.length > 0 ? contextRef.current : undefined`. */
  function SentContext(context: seq<int>): (r: Option<seq<int>>)
    ensures r.Some? <==> |context| > 0
    ensures r.Some? ==> r.value == context
  {
    if |context| > 0 then Some(context) else None
  }

  /** The user message `submitForm` appends. */
  function UserMessage(text: string, now: nat): ChatMessage {
    ChatMessage(UserId(now), text, User, now)
  }

  /** The empty assistant placeholder `submitForm` appends after it. */
  function Placeholder(now: nat): ChatMessage {
    ChatMessage(TempId(now), [], Assistant, now)
  }

  /** `!currentInput || actualIsLoading` negated: a submit proceeds. */
  predicate CanSubmit(input: string, isLoading: bool, localIsLoading: bool) {
    Trim(input) != [] && !isLoading && !localIsLoading
  }

  /** `prev.findIndex(m => m.id === tempAssistantIdRef.current)` and the slice:
      with no placeholder id held nothing matches and the list is kept. */
  function Rollback(ms: seq<ChatMessage>, tempId: Option<string>): (r: seq<ChatMessage>)
    ensures r <= ms
    ensures tempId.Some? ==> forall i :: 0 <= i < |r| ==> r[i].id != tempId.value
    ensures tempId.Some? && |r| < |ms| ==> ms[|r|].id == tempId.value
    ensures tempId.None? ==> r == ms
  {
    match tempId
    case None => ms
    case Some(id) => TruncateBefore(ms, id)
  }

  /** Rolling back right after a submit removes the placeholder and keeps the
      user message: the list is the old one plus the user message. */
  lemma {:induction false} RollbackAfterSubmit(ms: seq<ChatMessage>, user: ChatMessage, placeholder: ChatMessage)
    requires forall i :: 0 <= i < |ms| ==> ms[i].id != placeholder.id
    requires user.id != placeholder.id
    ensures Rollback(ms + [user, placeholder], Some(placeholder.id)) == ms + [user]
  {
    var all := ms + [user, placeholder];
    assert all[|ms| + 1].id == placeholder.id;
    assert forall i :: 0 <= i < |ms| + 1 ==> all[i].id != placeholder.id;
  }

  /** Stopping or failing right after a submit takes back exactly the
      placeholder: the user message stays, provided no earlier message carries
      the placeholder's id. */
  lemma SubmitThenRollback(ms: seq<ChatMessage>, text: string, userNow: nat, tempNow: nat)
    requires forall i :: 0 <= i < |ms| ==> ms[i].id != TempId(tempNow)
    ensures Rollback(ms + [UserMessage(text, userNow), Placeholder(tempNow)], Some(TempId(tempNow)))
            == ms + [UserMessage(text, userNow)]
  {
    UserIdIsNotTempId(userNow, tempNow);
    RollbackAfterSubmit(ms, UserMessage(text, userNow), Placeholder(tempNow));
  }

  /** The abort signal of one request. */
  class AbortController {
    var aborted: bool

    constructor ()
      ensures !aborted
    {
      aborted := false;
    }

    method Abort()
      modifies this
      ensures aborted
    {
      aborted := true;
    }
  }

  class InputController {
    var chatId: string
    var input: string
    var messages: seq<ChatMessage>
    var localIsLoading: bool
    /** `contextRef`, `controllerRef` and `tempAssistantIdRef`. */
    var context: seq<int>
    var controller: AbortController?
    var tempId: Option<string>
    /** The trimmed text the running submit sent (`currentInput`). */
    var submitted: string

    /** A controller is held only while a placeholder id is, and a placeholder
        id only while the local loading flag is set. */
    ghost predicate Valid()
      reads this
    {
      (controller != null ==> tempId.Some?) && (tempId.Some? ==> localIsLoading)
    }

    /** Mounting the component: the `chatId` effect runs once and the context is
        empty. */
    constructor (chatId: string, input: string, messages: seq<ChatMessage>)
      ensures Valid()
      ensures this.chatId == chatId && this.input == input && this.messages == messages
      ensures context == [] && controller == null && tempId == None && !localIsLoading
    {
      this.chatId := chatId;
      this.input := input;
      this.messages := messages;
      localIsLoading := false;
      context := [];
      controller := null;
      tempId := None;
      submitted := [];
    }

    /** `submitForm` up to the request: when it proceeds it clears the input,
        sets loading, appends the user message (through `append`) and an empty
        assistant placeholder, creates a fresh controller, and returns the
        request, which carries the held context only when it is non-empty.
        `userNow` and `tempNow` are the two clock readings. */
    method Submit(isLoading: bool, userNow: nat, tempNow: nat) returns (req: Option<Request>)
      requires Valid()
      modifies this
      ensures Valid()
      ensures !CanSubmit(old(input), isLoading, old(localIsLoading)) ==>
                req == None && unchanged(this)
      ensures CanSubmit(old(input), isLoading, old(localIsLoading)) ==>
                && req == Some(Request(DefaultModel, Trim(old(input)), SentContext(old(context))))
                && input == [] && localIsLoading && submitted == Trim(old(input))
                && tempId == Some(TempId(tempNow))
                && messages == old(messages) + [UserMessage(Trim(old(input)), userNow), Placeholder(tempNow)]
                && controller != null && fresh(controller) && !controller.aborted
                && context == old(context) && chatId == old(chatId)
    {
      var currentInput := Trim(input);
      if currentInput == [] || isLoading || localIsLoading {
        return None;
      }
      var r := Begin(currentInput, userNow, tempNow);
      req := Some(r);
    }

    /** The part of `submitForm` after the guard, for the trimmed text. */
    method Begin(currentInput: string, userNow: nat, tempNow: nat) returns (req: Request)
      modifies this
      ensures Valid()
      ensures req == Request(DefaultModel, currentInput, SentContext(old(context)))
      ensures input == [] && localIsLoading && submitted == currentInput
      ensures tempId == Some(TempId(tempNow))
      ensures messages == old(messages) + [UserMessage(currentInput, userNow), Placeholder(tempNow)]
      ensures controller != null && fresh(controller) && !controller.aborted
      ensures context == old(context) && chatId == old(chatId)
    {
      input := [];
      localIsLoading := true;
      submitted := currentInput;
      tempId := Some(TempId(tempNow));
      messages := messages + [UserMessage(currentInput, userNow), Placeholder(tempNow)];
      controller := new AbortController();
      req := Request(DefaultModel, currentInput, SentContext(context));
    }

    /** `handleNewContext`: the stream reports the context of its reply. */
    method OnContext(newContext: seq<int>)
      modifies this`context
      ensures context == newContext
    {
      context := newContext;
    }

    /** `handleStop`: with a request running it aborts it, rolls the list back to
        before the placeholder and forgets the context; otherwise nothing
        changes. */
    method Stop()
      requires Valid()
      modifies this`messages, this`context, controller
      ensures Valid()
      ensures old(controller) == null ==> messages == old(messages) && context == old(context)
      ensures old(controller) != null ==>
                && controller.aborted
                && messages == Rollback(old(messages), tempId)
                && context == []
    {
      if controller != null {
        controller.Abort();
        messages := Rollback(messages, tempId);
        context := [];
      }
    }

    /** The `finally` block: no controller, no placeholder id, not loading. */
    method Settle()
      modifies this`controller, this`tempId, this`localIsLoading
      ensures Valid()
      ensures controller == null && tempId == None && !localIsLoading
    {
      controller := null;
      tempId := None;
      localIsLoading := false;
    }

    /** The request or the stream threw. An `AbortError` leaves input, list and
        context alone; any other error puts the submitted text back in the
        input, rolls the list back to before the placeholder and forgets the
        context. Either way the `finally` block runs. */
    method Fail(isAbortError: bool)
      modifies this`input, this`messages, this`context, this`controller, this`tempId, this`localIsLoading
      ensures Valid()
      ensures controller == null && tempId == None && !localIsLoading
      ensures isAbortError ==>
                input == old(input) && messages == old(messages) && context == old(context)
      ensures !isAbortError ==>
                && input == submitted
                && messages == Rollback(old(messages), old(tempId))
                && context == []
    {
      if !isAbortError {
        input := submitted;
        messages := Rollback(messages, tempId);
        context := [];
      }
      Settle();
    }

    /** The stream finished normally: only the `finally` block runs. */
    method Succeed()
      modifies this`controller, this`tempId, this`localIsLoading
      ensures Valid()
      ensures controller == null && tempId == None && !localIsLoading
    {
      Settle();
    }

    /** The `[chatId]` effect: switching to another chat forgets the context. */
    method ChangeChat(newChatId: string)
      modifies this`chatId, this`context
      ensures chatId == newChatId
      ensures context == (if newChatId != old(chatId) then [] else old(context))
    {
      if newChatId != chatId {
        context := [];
      }
      chatId := newChatId;
    }
  }
}
