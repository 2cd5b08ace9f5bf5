/**
 * The two webhook handlers that carry logic: the text-message handler, which
 * either warns about the keyword or records the text in the rolling window,
 * and the unsend handler, which scans the window for the retracted message
 * and quotes it back to the group.
 *
 * Handlers receive the messaging API and the `messages` node as parameters
 * instead of reaching for module-level clients.
 */
module Handlers {
  import opened Wrappers
  import opened KeywordFilter
  import opened MessageStore
  import opened Messaging

  /** The reply sent when a text matches the keyword. */
  const WarningText: string := "還敢哈囉啊！\n"

  const QuotePrefix: string := "你是不是想要說：「"
  const QuoteSuffix: string := "」"

  /** A text message event: its reply token, its sender, its id and its text. */
  datatype TextEvent = TextEvent(replyToken: string, userId: string, messageId: string, text: string)

  /**
   * An unsend event: the id of the retracted message, and the group id of its
   * source, which only a group chat has (a one-to-one chat or a room has none).
   */
  datatype UnsendEvent = UnsendEvent(groupId: Option<string>, messageId: string)

  /** How a handler ended: normally, or with an exception that escapes to the web framework. */
  datatype Outcome = Handled | Raised(error: string)

  /** The push text that reveals a retracted message. */
  function Quote(text: string): (q: string)
    ensures |q| == |QuotePrefix| + |text| + |QuoteSuffix|
    ensures q[..|QuotePrefix|] == QuotePrefix
    ensures q[|QuotePrefix|..|q| - |QuoteSuffix|] == text
    ensures q[|q| - |QuoteSuffix|..] == QuoteSuffix
  {
    QuotePrefix + text + QuoteSuffix
  }

  /** The quoted text determines the retracted text. */
  lemma QuoteInjective(a: string, b: string)
    requires Quote(a) == Quote(b)
    ensures a == b
  {
    var qa := Quote(a);
    assert a == qa[|QuotePrefix|..|qa| - |QuoteSuffix|];
  }

  /**
   * The pushes an unsend of `messageId` sends to `groupId`: one per child whose
   * record carries that message id, in key order, each quoting that record's text.
   */
  function UnsendPushes(s: seq<Entry>, messageId: string, groupId: string): (r: seq<Send>)
    ensures |r| <= |s|
    ensures forall p :: 0 <= p < |r| ==> r[p].Push? && r[p].to == groupId
  {
    if s == [] then []
    else
      var last := s[|s| - 1];
      UnsendPushes(s[..|s| - 1], messageId, groupId) + (if last.rec.messageId == messageId then [Push(groupId, Quote(last.rec.text))] else [])
  }

  /** Scanning one more child adds at most the push for that child. */
  lemma UnsendPushesStep(s: seq<Entry>, i: nat, messageId: string, groupId: string)
    requires i < |s|
    ensures UnsendPushes(s[..i + 1], messageId, groupId)
      == UnsendPushes(s[..i], messageId, groupId)
         + (if s[i].rec.messageId == messageId then [Push(groupId, Quote(s[i].rec.text))] else [])
  {
    assert s[..i + 1][..i] == s[..i];
  }

  /** `q` quotes the text of a child that carries `messageId`. */
  ghost predicate QuotesMatching(s: seq<Entry>, messageId: string, q: Send) {
    exists i :: 0 <= i < |s| && s[i].rec.messageId == messageId && q.text == Quote(s[i].rec.text)
  }

  /** Every push quotes the text of a child that carries the retracted message's id. */
  lemma {:induction false} UnsendPushesSound(s: seq<Entry>, messageId: string, groupId: string)
    ensures forall p :: 0 <= p < |UnsendPushes(s, messageId, groupId)| ==>
      QuotesMatching(s, messageId, UnsendPushes(s, messageId, groupId)[p])
  {
    if s != [] {
      var init := s[..|s| - 1];
      UnsendPushesSound(init, messageId, groupId);
      var r, r0 := UnsendPushes(s, messageId, groupId), UnsendPushes(init, messageId, groupId);
      forall p | 0 <= p < |r|
        ensures QuotesMatching(s, messageId, r[p])
      {
        if p < |r0| {
          assert QuotesMatching(init, messageId, r0[p]);
          var i :| 0 <= i < |init| && init[i].rec.messageId == messageId && r0[p].text == Quote(init[i].rec.text);
          assert s[i] == init[i] && r[p] == r0[p];
        } else {
          assert s[|s| - 1].rec.messageId == messageId && r[p].text == Quote(s[|s| - 1].rec.text);
        }
      }
    }
  }

  /** Every child that carries the retracted message's id is quoted by some push. */
  lemma {:induction false} UnsendPushesComplete(s: seq<Entry>, messageId: string, groupId: string, i: int)
    requires 0 <= i < |s| && s[i].rec.messageId == messageId
    ensures Push(groupId, Quote(s[i].rec.text)) in UnsendPushes(s, messageId, groupId)
  {
    if i < |s| - 1 {
      var init := s[..|s| - 1];
      UnsendPushesComplete(init, messageId, groupId, i);
      assert init[i] == s[i];
    }
  }

  /** Some child carries `messageId`. */
  predicate HasMatch(s: seq<Entry>, messageId: string) {
    exists i :: 0 <= i < |s| && s[i].rec.messageId == messageId
  }

  /** Positions of the children whose record carries `messageId`. */
  ghost function MatchingPositions(s: seq<Entry>, messageId: string): set<int> {
    set i | 0 <= i < |s| && s[i].rec.messageId == messageId
  }

  /** Exactly one push per matching child. */
  lemma {:induction false} UnsendPushesCount(s: seq<Entry>, messageId: string, groupId: string)
    ensures |UnsendPushes(s, messageId, groupId)| == |MatchingPositions(s, messageId)|
  {
    if s == [] {
      assert MatchingPositions(s, messageId) == {};
    } else {
      var n := |s| - 1;
      var init := s[..n];
      UnsendPushesCount(init, messageId, groupId);
      var before := MatchingPositions(init, messageId);
      assert n !in before;
      if s[n].rec.messageId == messageId {
        assert MatchingPositions(s, messageId) == before + {n};
      } else {
        assert MatchingPositions(s, messageId) == before;
      }
    }
  }

  /** Nothing is pushed exactly when no child carries the retracted message's id. */
  lemma UnsendPushesEmpty(s: seq<Entry>, messageId: string, groupId: string)
    ensures UnsendPushes(s, messageId, groupId) == [] <==> forall i :: 0 <= i < |s| ==> s[i].rec.messageId != messageId
  {
    if exists i :: 0 <= i < |s| && s[i].rec.messageId == messageId {
      var i :| 0 <= i < |s| && s[i].rec.messageId == messageId;
      UnsendPushesComplete(s, messageId, groupId, i);
    }
  }

  /**
   * A text recorded in a well-formed window and then retracted is quoted back
   * to the group the unsend came from.
   */
  lemma RecordedThenUnsent(t: Table, e: TextEvent, groupId: string)
    requires WellFormed(t)
    ensures Push(groupId, Quote(e.text)) in UnsendPushes(Recorded(t, e.userId, e.messageId, e.text).entries, e.messageId, groupId)
  {
    RecordedNewest(t, e.userId, e.messageId, e.text);
    var s := Recorded(t, e.userId, e.messageId, e.text).entries;
    UnsendPushesComplete(s, e.messageId, groupId, |s| - 1);
  }

  /**
   * `handle_text_message`: a text matching the keyword gets the warning reply
   * and leaves the window alone; any other text is recorded in the window and
   * gets no reply.
   */
  method HandleTextMessage(api: MessagingApi, messages: MessagesRef, e: TextEvent)
    requires messages.Valid()
    modifies api, messages
    ensures messages.Valid()
    ensures Matches(Keyword, e.text) ==>
      && api.sent == old(api.sent) + [Reply(e.replyToken, WarningText, true)]
      && messages.Model() == old(messages.Model())
    ensures !Matches(Keyword, e.text) ==>
      && api.sent == old(api.sent)
      && messages.Model() == Recorded(old(messages.Model()), e.userId, e.messageId, e.text)
  {
    if Search(Keyword, e.text) {
      api.ReplyMessage(e.replyToken, WarningText, true);
    } else {
      messages.Record(e.userId, e.messageId, e.text);
    }
  }

  /**
   * `handle_unsend`: read the whole node once and push a quote of every
   * record whose message id is the retracted one to the event's group. An
   * empty node reads as None, and iterating over it raises a TypeError
   * before anything is sent. A source without a group id raises when the
   * first matching record asks for it, also before anything is sent. The
   * node is never changed.
   */
  method HandleUnsend(api: MessagingApi, messages: MessagesRef, e: UnsendEvent) returns (outcome: Outcome)
    modifies api
    ensures messages.entries == [] ==> outcome.Raised? && api.sent == old(api.sent)
    ensures messages.entries != [] && e.groupId.None? ==>
      && (if HasMatch(messages.entries, e.messageId) then outcome.Raised? else outcome == Handled)
      && api.sent == old(api.sent)
    ensures messages.entries != [] && e.groupId.Some? ==>
      && outcome == Handled
      && api.sent == old(api.sent) + UnsendPushes(messages.entries, e.messageId, e.groupId.value)
  {
    var allMessages := messages.Get();
    if allMessages == None {
      return Raised("TypeError: 'NoneType' object is not iterable");
    }
    var s := allMessages.value;
    ghost var sent0 := api.sent;
    var i := 0;
    while i < |s|
      invariant 0 <= i <= |s|
      invariant e.groupId.Some? ==> api.sent == sent0 + UnsendPushes(s[..i], e.messageId, e.groupId.value)
      invariant e.groupId.None? ==> api.sent == sent0
      invariant e.groupId.None? ==> forall j :: 0 <= j < i ==> s[j].rec.messageId != e.messageId
    {
      if s[i].rec.messageId == e.messageId {
        if e.groupId == None {
          return Raised("AttributeError: the event source has no group_id");
        }
        UnsendPushesStep(s, i, e.messageId, e.groupId.value);
        api.PushMessage(e.groupId.value, Quote(s[i].rec.text));
      } else if e.groupId.Some? {
        UnsendPushesStep(s, i, e.messageId, e.groupId.value);
      }
      i := i + 1;
    }
    assert s[..i] == s;
    outcome := Handled;
  }
}
