/**
 * The process-wide session store behind `get_session_history`: one chat history
 * per session id, created on first use and shared by every later call.
 */
module Sessions {

  /** One chat turn. */
  datatype Message = Message(role: string, content: string)

  /** A chat message history: an append-only list of turns, mutated in place. */
  class ChatHistory {
    var messages: seq<Message>

    constructor ()
      ensures messages == []
    {
      messages := [];
    }

    method AddMessage(m: Message)
      modifies this
      ensures messages == old(messages) + [m]
    {
      messages := messages + [m];
    }
  }

  /** The `store` dictionary, as an object passed to its users. */
  class SessionStore {
    var store: map<string, ChatHistory>

    /** The store starts empty when the module is loaded. */
    constructor ()
      ensures store == map[]
    {
      store := map[];
    }

    /**
     * `get_session_history`: an id already present gives back its own history and
     * leaves the store as it was; a new id gets a fresh empty history, bound under
     * that id and no other key changed. Either way the id is then bound to the
     * returned history.
     */
    method GetSessionHistory(sessionId: string) returns (history: ChatHistory)
      modifies this
      ensures sessionId in old(store) ==> history == old(store)[sessionId] && store == old(store)
      ensures sessionId !in old(store) ==>
                fresh(history) && history.messages == [] && store == old(store)[sessionId := history]
      ensures sessionId in store && store[sessionId] == history
    {
      if sessionId !in store {
        var created := new ChatHistory();
        store := store[sessionId := created];
      }
      history := store[sessionId];
    }
  }

  /**
   * Two calls with the same id on any store return the same history object, so a
   * turn appended through the first is seen through the second: after the turns the
   * history already held when the id was known, or as the only turn of a new one.
   */
  method SameHistoryTwice(sessions: SessionStore, sessionId: string, m: Message)
    returns (first: ChatHistory, second: ChatHistory)
    modifies sessions, sessions.store.Values
    ensures first == second
    ensures sessionId in old(sessions.store) ==>
              first == old(sessions.store)[sessionId]
              && second.messages == old(sessions.store[sessionId].messages) + [m]
    ensures sessionId !in old(sessions.store) ==> fresh(first) && second.messages == [m]
  {
    first := sessions.GetSessionHistory(sessionId);
    first.AddMessage(m);
    second := sessions.GetSessionHistory(sessionId);
  }
}
