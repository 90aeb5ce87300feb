/** The server's in-memory message store, `MessageService` (app.ts), and the
    message the server creates once at startup.  The store is append-only:
    `create` numbers each message by the number of messages stored before it,
    so a message's identifier is always its position in the store. */
module Messages {

  /** A stored message: the identifier assigned by `create` and its text. */
  datatype Message = Message(id: nat, text: string)

  /** The payload handed to `create`.  Only `text` is read; any other fields
      of the payload are ignored. */
  datatype MessageData = MessageData(text: string, otherFields: map<string, string>)

  /** The store's invariant: every message's identifier is its position. */
  predicate IdsArePositions(s: seq<Message>) {
    forall i :: 0 <= i < |s| ==> s[i].id == i
  }

  /** The texts of a store, in order. */
  function Texts(s: seq<Message>): (r: seq<string>)
    ensures |r| == |s| && forall i :: 0 <= i < |s| ==> r[i] == s[i].text
  {
    seq(|s|, i requires 0 <= i < |s| => s[i].text)
  }

  /** The store obtained from a fresh service by creating the given texts in order. */
  function Built(texts: seq<string>): (r: seq<Message>)
    ensures |r| == |texts|
  {
    if |texts| == 0 then []
    else Built(texts[..|texts| - 1]) + [Message(|texts| - 1, texts[|texts| - 1])]
  }

  lemma {:induction false} BuiltAt(texts: seq<string>, i: nat)
    requires i < |texts|
    ensures Built(texts)[i] == Message(i, texts[i])
  {
    var n := |texts| - 1;
    if i < n {
      BuiltAt(texts[..n], i);
    }
  }

  /** A store keeps the invariant exactly when it is what some sequence of
      `create` calls on a fresh service would have produced. */
  lemma IdsArePositionsIffBuilt(s: seq<Message>)
    ensures IdsArePositions(s) <==> s == Built(Texts(s))
  {
    var texts := Texts(s);
    forall i | 0 <= i < |s| ensures Built(texts)[i] == Message(i, s[i].text) {
      BuiltAt(texts, i);
    }
  }

  /** Identifiers in a valid store are unique and strictly increasing. */
  lemma IdsIncreasing(s: seq<Message>, i: nat, j: nat)
    requires IdsArePositions(s) && i < j < |s|
    ensures s[i].id < s[j].id
  {
  }

  class MessageService {
    var messages: seq<Message>

    ghost predicate Valid()
      reads this
    {
      IdsArePositions(messages)
    }

    constructor ()
      ensures messages == [] && Valid()
    {
      messages := [];
    }

    /** `find`: all stored messages, in the order they were created. */
    method Find() returns (r: seq<Message>)
      ensures r == messages
      ensures Valid() ==> IdsArePositions(r)
    {
      r := messages;
    }

    /** `create`: number the new message by the current store size and append it. */
    method Create(data: MessageData) returns (m: Message)
      modifies this
      ensures m.id == |old(messages)| && m.text == data.text
      ensures messages == old(messages) + [m]
      ensures Texts(messages) == Texts(old(messages)) + [data.text]
      ensures old(Valid()) ==> Valid()
    {
      m := Message(|messages|, data.text);
      messages := messages + [m];
    }
  }

  /** A fresh service after `create` is called with each text in turn: the
      store is the reference store Built(texts). */
  method CreateInOrder(texts: seq<string>) returns (stored: seq<Message>)
    ensures stored == Built(texts)
  {
    var service := new MessageService();
    var k := 0;
    while k < |texts|
      invariant 0 <= k <= |texts|
      invariant service.Valid() && Texts(service.messages) == texts[..k]
    {
      var _ := service.Create(MessageData(texts[k], map[]));
      assert texts[..k + 1] == texts[..k] + [texts[k]];
      k := k + 1;
    }
    stored := service.Find();
    assert texts[..k] == texts;
    IdsArePositionsIffBuilt(stored);
  }

  /** The server's startup: a fresh service and one `create`; the closing
      `find` only observes the result. */
  method Startup() returns (first: Message, listed: seq<Message>)
    ensures first == Message(0, "Hello world from the server")
    ensures listed == [first]
  {
    var service := new MessageService();
    first := service.Create(MessageData("Hello world from the server", map[]));
    listed := service.Find();
  }
}
