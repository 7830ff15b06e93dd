/** The store of loading messages shown while recommendations are prepared: a list that
    only ever grows at its end. */
module LoadingState {

  datatype LoadingMessage = LoadingMessage(message: string)

  datatype LoadingStore = LoadingStore(loadingMessages: seq<LoadingMessage>)

  /** The store as created: no messages yet. */
  const InitialStore: LoadingStore := LoadingStore([])

  /** The message texts of a store, oldest first. */
  function Texts(store: LoadingStore): (texts: seq<string>)
    ensures |texts| == |store.loadingMessages|
    ensures forall i :: 0 <= i < |texts| ==> texts[i] == store.loadingMessages[i].message
  {
    seq(|store.loadingMessages|, i requires 0 <= i < |store.loadingMessages| =>
      store.loadingMessages[i].message)
  }

  /** One more message at the end: the list grows by exactly one, every earlier entry
      stays where it was, and the new last entry carries exactly `message`. */
  function AddLoadingMessage(store: LoadingStore, message: string): (next: LoadingStore)
    ensures |next.loadingMessages| == |store.loadingMessages| + 1
    ensures store.loadingMessages <= next.loadingMessages
    ensures next.loadingMessages[|store.loadingMessages|] == LoadingMessage(message)
  {
    LoadingStore(store.loadingMessages + [LoadingMessage(message)])
  }

  /** `AddLoadingMessage` called once per message, in order. The old list stays a prefix. */
  function AddAll(store: LoadingStore, messages: seq<string>): (next: LoadingStore)
    ensures |next.loadingMessages| == |store.loadingMessages| + |messages|
    ensures store.loadingMessages <= next.loadingMessages
    decreases messages
  {
    if messages == [] then store
    else AddAll(AddLoadingMessage(store, messages[0]), messages[1..])
  }

  /** After any number of calls the messages appear in call order after the old ones. */
  lemma {:induction false} AddAllInCallOrder(store: LoadingStore, messages: seq<string>)
    ensures Texts(AddAll(store, messages)) == Texts(store) + messages
    decreases messages
  {
    if messages != [] {
      var next := AddLoadingMessage(store, messages[0]);
      AddAllInCallOrder(next, messages[1..]);
      assert Texts(next) == Texts(store) + [messages[0]];
      assert messages == [messages[0]] + messages[1..];
    }
  }

  /** From the initial store, the messages are exactly the calls' messages, in order. */
  lemma ReplayFromInitial(messages: seq<string>)
    ensures Texts(AddAll(InitialStore, messages)) == messages
  {
    AddAllInCallOrder(InitialStore, messages);
    assert Texts(InitialStore) == [];
  }
}
