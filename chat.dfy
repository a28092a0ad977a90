/**
 * The chat message list the input box and the stream engine both write to
 * through `setMessages`, and the three list updates they apply to it.
 */
module Chat {

  datatype Role = User | Assistant

  /** One entry of the chat list; `createdAt` is a millisecond timestamp. */
  datatype ChatMessage = ChatMessage(id: string, content: string, role: Role, createdAt: int)

  /** `prev.map(msg => msg.id === id ? { ...msg, content } : msg)`: every message
      carrying `id` shows `content`; nothing else changes. */
  function SetContent(ms: seq<ChatMessage>, id: string, content: string): (r: seq<ChatMessage>)
    ensures |r| == |ms|
    ensures forall i :: 0 <= i < |ms| && ms[i].id == id ==> r[i] == ms[i].(content := content)
    ensures forall i :: 0 <= i < |ms| && ms[i].id != id ==> r[i] == ms[i]
  {
    if ms == [] then []
    else [if ms[0].id == id then ms[0].(content := content) else ms[0]] + SetContent(ms[1..], id, content)
  }

  /** A later push of the same message overrides an earlier one. */
  lemma {:induction false} SetContentLastWins(ms: seq<ChatMessage>, id: string, c1: string, c2: string)
    ensures SetContent(SetContent(ms, id, c1), id, c2) == SetContent(ms, id, c2)
  {
    if ms != [] {
      SetContentLastWins(ms[1..], id, c1, c2);
    }
  }

  /** Pushing content to an id that is not in the list changes nothing. */
  lemma {:induction false} SetContentAbsent(ms: seq<ChatMessage>, id: string, c: string)
    requires forall i :: 0 <= i < |ms| ==> ms[i].id != id
    ensures SetContent(ms, id, c) == ms
  {
    if ms != [] {
      SetContentAbsent(ms[1..], id, c);
    }
  }

  /** `prev.findIndex(m => m.id === id)`: the first position carrying `id`, or -1. */
  function FindIndex(ms: seq<ChatMessage>, id: string): (r: int)
    ensures -1 <= r < |ms|
    ensures r == -1 <==> forall i :: 0 <= i < |ms| ==> ms[i].id != id
    ensures r >= 0 ==> ms[r].id == id && forall i :: 0 <= i < r ==> ms[i].id != id
  {
    if ms == [] then -1
    else if ms[0].id == id then 0
    else var k := FindIndex(ms[1..], id); if k == -1 then -1 else k + 1
  }

  /** The rollback applied on stop and on failure:
      `lastIndex !== -1 ? prev.slice(0, lastIndex) : prev`. The result is the
      longest prefix of the list that holds no message carrying `id`. */
  function TruncateBefore(ms: seq<ChatMessage>, id: string): (r: seq<ChatMessage>)
    ensures r <= ms
    ensures forall i :: 0 <= i < |r| ==> r[i].id != id
    ensures |r| < |ms| ==> ms[|r|].id == id
  {
    var k := FindIndex(ms, id);
    if k != -1 then ms[..k] else ms
  }

  /** Rolling back twice is rolling back once. */
  lemma TruncateBeforeIdempotent(ms: seq<ChatMessage>, id: string)
    ensures TruncateBefore(TruncateBefore(ms, id), id) == TruncateBefore(ms, id)
  {
  }

  /** The stream's error path: `[...prev.slice(0, -1), { ...last, content }]`,
      which rewrites the content of the last message only. */
  function ReplaceLast(ms: seq<ChatMessage>, content: string): (r: seq<ChatMessage>)
    requires ms != []
    ensures |r| == |ms| && r[..|ms| - 1] == ms[..|ms| - 1]
    ensures r[|ms| - 1] == ms[|ms| - 1].(content := content)
  {
    ms[..|ms| - 1] + [ms[|ms| - 1].(content := content)]
  }

  /** When the message carrying `id` is the last one, the rollback after a failure
      removes whatever the error path wrote into it: the interruption notice
      never survives the caller's rollback. */
  lemma {:induction false} RollbackDiscardsReplacedLast(ms: seq<ChatMessage>, id: string, content: string)
    requires ms != [] && ms[|ms| - 1].id == id
    ensures TruncateBefore(ReplaceLast(ms, content), id) == TruncateBefore(ms, id)
    ensures |TruncateBefore(ms, id)| < |ms|
  {
    var r := ReplaceLast(ms, content);
    var k := FindIndex(ms, id);
    assert k != -1;
    forall i | 0 <= i < |ms| ensures r[i].id == ms[i].id {
      if i < |ms| - 1 {
        assert r[i] == r[..|ms| - 1][i];
      }
    }
    FindIndexSameIds(ms, r, id);
    assert r[..k] == ms[..k] by {
      forall i | 0 <= i < k ensures r[i] == ms[i] {
        assert r[i] == r[..|ms| - 1][i];
      }
    }
  }

  lemma {:induction false} FindIndexSameIds(a: seq<ChatMessage>, b: seq<ChatMessage>, id: string)
    requires |a| == |b| && forall i :: 0 <= i < |a| ==> a[i].id == b[i].id
    ensures FindIndex(a, id) == FindIndex(b, id)
  {
    if a != [] && a[0].id != id {
      FindIndexSameIds(a[1..], b[1..], id);
    }
  }
}
