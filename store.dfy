/**
 * The rolling window of recent messages kept under the realtime database's
 * `messages` node.
 *
 * The node is a set of children, each under a push key. Push keys are
 * chronological: every push gets a key greater than every key already
 * present, so ordering the children by key orders them by insertion. The
 * model writes a key as a natural number, keeps the children in key order and
 * keeps the key the next push receives.
 */
module MessageStore {
  import opened Wrappers

  /** The number of records the window holds once it is full. */
  const Capacity: int := 5

  /** One stored message: `{order, user_id, message_id, message_text}`. */
  datatype Rec = Rec(order: int, userId: string, messageId: string, text: string)

  /** The record seeded into an empty node. */
  const Placeholder: Rec := Rec(5, "UID", "MID", "Message Text")

  /** A child of the `messages` node: its push key and its record. */
  datatype Entry = Entry(key: nat, rec: Rec)

  /** The `messages` node as a value: the children in key order, and the key of the next push. */
  datatype Table = Table(entries: seq<Entry>, nextKey: nat)

  /** Keys ascend strictly and every key was handed out before `nextKey`. */
  predicate WellFormed(t: Table) {
    && (forall i, j :: 0 <= i < j < |t.entries| ==> t.entries[i].key < t.entries[j].key)
    && (forall i :: 0 <= i < |t.entries| ==> t.entries[i].key < t.nextKey)
  }

  /** `messages_ref.push(r)`: a new child under a fresh key. */
  function Pushed(t: Table, r: Rec): (t': Table)
    ensures |t'.entries| == |t.entries| + 1 && t'.entries[..|t.entries|] == t.entries
    ensures t'.entries[|t.entries|] == Entry(t.nextKey, r)
    ensures WellFormed(t) ==> WellFormed(t')
  {
    Table(t.entries + [Entry(t.nextKey, r)], t.nextKey + 1)
  }

  /** The children left after `messages_ref.child(key).delete()`. */
  function Without(s: seq<Entry>, key: nat): (r: seq<Entry>)
    ensures |r| <= |s|
    ensures forall i :: 0 <= i < |r| ==> r[i] in s && r[i].key != key
    ensures forall i :: 0 <= i < |s| && s[i].key != key ==> s[i] in r
  {
    if s == [] then []
    else (if s[0].key == key then [] else [s[0]]) + Without(s[1..], key)
  }

  lemma {:induction false} WithoutAppend(a: seq<Entry>, b: seq<Entry>, key: nat)
    ensures Without(a + b, key) == Without(a, key) + Without(b, key)
  {
    if a == [] {
      assert a + b == b;
    } else {
      assert (a + b)[0] == a[0] && (a + b)[1..] == a[1..] + b;
      WithoutAppend(a[1..], b, key);
    }
  }

  lemma {:induction false} WithoutAbsent(s: seq<Entry>, key: nat)
    requires forall i :: 0 <= i < |s| ==> s[i].key != key
    ensures Without(s, key) == s
  {
    if s != [] {
      WithoutAbsent(s[1..], key);
    }
  }

  /** In a well-formed table, deleting the smallest key drops exactly the first child. */
  lemma WithoutOldest(t: Table)
    requires WellFormed(t) && t.entries != []
    ensures Without(t.entries, t.entries[0].key) == t.entries[1..]
  {
    var s := t.entries;
    WithoutAbsent(s[1..], s[0].key);
  }

  /**
   * A key that is present and no greater than any present key is the first
   * child's key, and deleting it leaves the remaining children, still well formed.
   */
  lemma SmallestKeyIsFirst(t: Table, least: nat)
    requires WellFormed(t)
    requires exists i :: 0 <= i < |t.entries| && t.entries[i].key == least
    requires forall i :: 0 <= i < |t.entries| ==> least <= t.entries[i].key
    ensures least == t.entries[0].key
    ensures Without(t.entries, least) == t.entries[1..]
    ensures WellFormed(Table(t.entries[1..], t.nextKey))
  {
    var i :| 0 <= i < |t.entries| && t.entries[i].key == least;
    assert least <= t.entries[0].key;
    WithoutOldest(t);
  }

  /**
   * The node after one non-matching text has been recorded. An empty node is
   * seeded with the placeholder first. Below capacity the new record is
   * appended; at or above capacity it is appended and the child with the
   * smallest key is removed. The order of the new record is the capacity
   * minus the number of children before the push.
   */
  function Recorded(t: Table, userId: string, messageId: string, text: string): Table {
    var seeded := if t.entries == [] then Pushed(t, Placeholder) else t;
    var r := Rec(Capacity - |seeded.entries|, userId, messageId, text);
    if |seeded.entries| >= Capacity then
      Table(seeded.entries[1..] + [Entry(seeded.nextKey, r)], seeded.nextKey + 1)
    else
      Pushed(seeded, r)
  }

  /** Recording keeps keys ascending and below the next key. */
  lemma RecordedWellFormed(t: Table, userId: string, messageId: string, text: string)
    requires WellFormed(t)
    ensures WellFormed(Recorded(t, userId, messageId, text))
  {
  }

  /**
   * The newest child is the event's record, unchanged, under a key greater
   * than every key the node held before.
   */
  lemma RecordedNewest(t: Table, userId: string, messageId: string, text: string)
    requires WellFormed(t)
    ensures var t' := Recorded(t, userId, messageId, text);
      && t'.entries != []
      && var last := t'.entries[|t'.entries| - 1];
      && last.rec.userId == userId && last.rec.messageId == messageId && last.rec.text == text
      && (forall i :: 0 <= i < |t.entries| ==> t.entries[i].key < last.key)
      && (forall i :: 0 <= i < |t'.entries| - 1 ==> t'.entries[i].key < last.key)
  {
  }

  /** On an empty node exactly one placeholder is pushed before the new record. */
  lemma RecordedSeedsEmpty(t: Table, userId: string, messageId: string, text: string)
    requires t.entries == []
    ensures var t' := Recorded(t, userId, messageId, text);
      && |t'.entries| == 2
      && t'.entries[0] == Entry(t.nextKey, Placeholder)
      && t'.entries[1] == Entry(t.nextKey + 1, Rec(Capacity - 1, userId, messageId, text))
  {
  }

  /**
   * Below capacity the node grows by exactly one child, the old children keep
   * their places, and the new record's order is the capacity minus the old size.
   */
  lemma RecordedGrows(t: Table, userId: string, messageId: string, text: string)
    requires 0 < |t.entries| < Capacity
    ensures var t' := Recorded(t, userId, messageId, text);
      && |t'.entries| == |t.entries| + 1
      && t'.entries[..|t.entries|] == t.entries
      && t'.entries[|t.entries|] == Entry(t.nextKey, Rec(Capacity - |t.entries|, userId, messageId, text))
      && 1 <= t'.entries[|t.entries|].rec.order < Capacity
  {
  }

  /**
   * At or above capacity exactly the child with the smallest key is evicted:
   * the size is unchanged, every other child is kept in place, and the new
   * record, whose order is not positive, comes last.
   */
  lemma RecordedEvictsOldest(t: Table, userId: string, messageId: string, text: string)
    requires WellFormed(t) && |t.entries| >= Capacity
    ensures forall i :: 0 <= i < |t.entries| ==> t.entries[0].key <= t.entries[i].key
    ensures var t' := Recorded(t, userId, messageId, text);
      && |t'.entries| == |t.entries|
      && t.entries[0] !in t'.entries
      && t'.entries[..|t.entries| - 1] == t.entries[1..]
      && t'.entries[|t.entries| - 1] == Entry(t.nextKey, Rec(Capacity - |t.entries|, userId, messageId, text))
      && t'.entries[|t.entries| - 1].rec.order <= 0
  {
    var t' := Recorded(t, userId, messageId, text);
    assert forall i :: 0 <= i < |t'.entries| ==> t.entries[0].key < t'.entries[i].key;
  }

  /** One text message that fails the keyword filter. */
  datatype Message = Message(userId: string, messageId: string, text: string)

  /** The node after a run of non-matching texts, recorded one at a time, oldest first. */
  function RecordedAll(t: Table, ms: seq<Message>): Table
  {
    if ms == [] then t
    else
      var m := ms[|ms| - 1];
      Recorded(RecordedAll(t, ms[..|ms| - 1]), m.userId, m.messageId, m.text)
  }

  /** A node of at most `Capacity` children keeps at most `Capacity` children, however many texts arrive. */
  lemma {:induction false} RecordedAllBounded(t: Table, ms: seq<Message>)
    requires WellFormed(t) && |t.entries| <= Capacity
    ensures WellFormed(RecordedAll(t, ms)) && |RecordedAll(t, ms).entries| <= Capacity
  {
    if ms != [] {
      var m := ms[|ms| - 1];
      RecordedAllBounded(t, ms[..|ms| - 1]);
      RecordedWellFormed(RecordedAll(t, ms[..|ms| - 1]), m.userId, m.messageId, m.text);
    }
  }

  /** The sender, id and text a child holds. */
  function AsMessage(e: Entry): Message {
    Message(e.rec.userId, e.rec.messageId, e.rec.text)
  }

  /** The messages the children hold, in key order. */
  function Messages(s: seq<Entry>): (ms: seq<Message>)
    ensures |ms| == |s|
  {
    seq(|s|, i requires 0 <= i < |s| => AsMessage(s[i]))
  }

  lemma MessagesAppend(a: seq<Entry>, b: seq<Entry>)
    ensures Messages(a + b) == Messages(a) + Messages(b)
  {
  }

  /** The last `|L|` children of `s` hold the messages of `L`, oldest first. */
  ghost predicate EndsWith(s: seq<Entry>, L: seq<Message>) {
    |L| <= |s| && Messages(s)[|s| - |L|..] == L
  }

  /** The newest children of `t` hold the messages of `L`, oldest first. */
  ghost predicate HoldsLast(t: Table, L: seq<Message>) {
    EndsWith(t.entries, L)
  }

  /** The most recent `Capacity` messages of `L`, or all of them when there are fewer. */
  function Latest(L: seq<Message>): (w: seq<Message>)
    ensures |w| <= Capacity && |w| <= |L|
    ensures |L| <= Capacity ==> w == L
    ensures |L| >= Capacity ==> |w| == Capacity
    ensures w == L[|L| - |w|..]
  {
    if |L| <= Capacity then L else L[|L| - Capacity..]
  }

  /** Messages before the last `Capacity` ones do not change which are the latest. */
  lemma LatestSuffix(p: seq<Message>, s: seq<Message>)
    requires |s| >= Capacity
    ensures Latest(p + s) == Latest(s)
  {
    assert (p + s)[|p + s| - Capacity..] == s[|s| - Capacity..];
  }

  /** Keeping the latest of the latest messages and then some more is keeping the latest of all. */
  lemma LatestAppend(a: seq<Message>, b: seq<Message>)
    ensures Latest(Latest(a) + b) == Latest(a + b)
  {
    if |a| > Capacity {
      var w := a[|a| - Capacity..];
      assert a + b == a[..|a| - Capacity] + (w + b);
      LatestSuffix(a[..|a| - Capacity], w + b);
    }
  }

  /** The last `k + 1` of `x + [y]` are the last `k` of `x`, then `y`. */
  lemma SuffixAppend(x: seq<Message>, k: nat, y: Message)
    requires k <= |x|
    ensures (x + [y])[|x| - k..] == x[|x| - k..] + [y]
  {
  }

  /** The last `k` of the tail of `x` are the last `k` of `x`. */
  lemma TailSuffix(x: seq<Message>, k: nat)
    requires k < |x|
    ensures x[1..][|x| - 1 - k..] == x[|x| - k..]
  {
  }

  lemma MessagesDrop(s: seq<Entry>)
    requires s != []
    ensures Messages(s[1..]) == Messages(s)[1..]
  {
    assert s == [s[0]] + s[1..];
    MessagesAppend([s[0]], s[1..]);
  }

  /** Appending a child to children that end with `L` makes them end with `L` and its message. */
  lemma EndsWithAppend(s: seq<Entry>, L: seq<Message>, e: Entry)
    requires EndsWith(s, L)
    ensures EndsWith(s + [e], L + [AsMessage(e)])
  {
    MessagesAppend(s, [e]);
    assert Messages([e]) == [AsMessage(e)];
    SuffixAppend(Messages(s), |L|, AsMessage(e));
  }

  /** A push below capacity: the latest messages gain the new one. */
  lemma PushKeepsLatest(s: seq<Entry>, L: seq<Message>, e: Entry)
    requires |s| < Capacity && EndsWith(s, L)
    ensures EndsWith(s + [e], Latest(L + [AsMessage(e)]))
  {
    EndsWithAppend(s, L, e);
  }

  /**
   * A push at capacity followed by dropping the first child: the latest
   * messages gain the new one, and lose their first when they covered the node.
   */
  lemma ShiftKeepsLatest(s: seq<Entry>, L: seq<Message>, e: Entry)
    requires |s| == Capacity && EndsWith(s, L)
    ensures EndsWith(s[1..] + [e], Latest(L + [AsMessage(e)]))
  {
    var x := Messages(s);
    MessagesDrop(s);
    if |L| < |s| {
      TailSuffix(x, |L|);
      EndsWithAppend(s[1..], L, e);
    } else {
      assert x[1..][0..] == L[1..];
      EndsWithAppend(s[1..], L[1..], e);
      assert Latest(L + [AsMessage(e)]) == L[1..] + [AsMessage(e)];
    }
  }

  /** One recording on a node of at most `Capacity` children shifts the held messages along. */
  lemma RecordedHoldsLast(t: Table, L: seq<Message>, m: Message)
    requires |t.entries| <= Capacity && HoldsLast(t, L)
    ensures var t' := Recorded(t, m.userId, m.messageId, m.text);
      |t'.entries| <= Capacity && HoldsLast(t', Latest(L + [m]))
  {
    var t' := Recorded(t, m.userId, m.messageId, m.text);
    var n := |t.entries|;
    var e := t'.entries[|t'.entries| - 1];
    assert AsMessage(e) == m;
    if n == 0 {
      var s := [t'.entries[0]];
      assert t'.entries == s + [e];
      PushKeepsLatest(s, L, e);
    } else if n < Capacity {
      assert t'.entries == t.entries + [e];
      PushKeepsLatest(t.entries, L, e);
    } else {
      assert t'.entries == t.entries[1..] + [e];
      ShiftKeepsLatest(t.entries, L, e);
    }
  }

  /**
   * However many texts are recorded, the node keeps at most `Capacity`
   * children and ends holding the most recent texts (up to `Capacity`), oldest
   * first, after whatever it held before.
   */
  lemma {:induction false} RecordedAllHoldsLast(t: Table, L: seq<Message>, ms: seq<Message>)
    requires |t.entries| <= Capacity && HoldsLast(t, L)
    ensures |RecordedAll(t, ms).entries| <= Capacity
    ensures HoldsLast(RecordedAll(t, ms), Latest(L + ms))
  {
    if ms == [] {
      assert L + ms == L;
    } else {
      var init, m := ms[..|ms| - 1], ms[|ms| - 1];
      assert ms == init + [m];
      assert L + ms == L + init + [m];
      LatestAppend(L + init, [m]);
      RecordedAllHoldsLast(t, L, init);
      RecordedHoldsLast(RecordedAll(t, init), Latest(L + init), m);
    }
  }

  /**
   * Recording texts on an empty node leaves their most recent `Capacity`
   * (or all of them, when fewer) as the newest children, oldest first.
   */
  lemma WindowKeepsLatest(ms: seq<Message>)
    ensures HoldsLast(RecordedAll(Table([], 0), ms), Latest(ms))
  {
    RecordedAllHoldsLast(Table([], 0), [], ms);
    assert [] + ms == ms;
  }

  /**
   * Six texts recorded on an empty node: the placeholder and the first text
   * are evicted in turn, and the last five texts remain, oldest first.
   */
  lemma SixRecordsKeepLastFive(ms: seq<Message>)
    requires |ms| == 6
    ensures var t' := RecordedAll(Table([], 0), ms);
      && |t'.entries| == 5
      && (forall i :: 0 <= i < 5 ==>
            && t'.entries[i].rec.userId == ms[i + 1].userId
            && t'.entries[i].rec.messageId == ms[i + 1].messageId
            && t'.entries[i].rec.text == ms[i + 1].text)
  {
    WindowKeepsLatest(ms);
    RecordedAllBounded(Table([], 0), ms);
    var t' := RecordedAll(Table([], 0), ms);
    assert Messages(t'.entries) == ms[1..];
    forall i | 0 <= i < 5
      ensures AsMessage(t'.entries[i]) == ms[i + 1]
    {
      assert Messages(t'.entries)[i] == AsMessage(t'.entries[i]);
    }
  }

  /** The `messages` node of the realtime database, changed in place by the handlers. */
  class MessagesRef {
    var entries: seq<Entry>
    var nextKey: nat

    ghost predicate Valid()
      reads this
    {
      WellFormed(Table(entries, nextKey))
    }

    function Model(): Table
      reads this
    {
      Table(entries, nextKey)
    }

    constructor ()
      ensures Valid() && Model() == Table([], 0)
    {
      entries := [];
      nextKey := 0;
    }

    /** `messages_ref.get()`: every child, or None when the node is empty. */
    method Get() returns (snapshot: Option<seq<Entry>>)
      ensures snapshot == None <==> entries == []
      ensures snapshot.Some? ==> snapshot.value == entries
    {
      snapshot := if entries == [] then None else Some(entries);
    }

    /** `messages_ref.push(r)`. */
    method Push(r: Rec)
      modifies this
      ensures Model() == Pushed(old(Model()), r)
    {
      entries := entries + [Entry(nextKey, r)];
      nextKey := nextKey + 1;
    }

    /**
     * `messages_ref.order_by_key().limit_to_first(1).get()`, as the list of
     * its keys: the smallest key present, or nothing on an empty node.
     */
    method OldestKeys() returns (keys: seq<nat>)
      ensures entries == [] <==> keys == []
      ensures keys != [] ==> |keys| == 1
      ensures keys != [] ==> exists i :: 0 <= i < |entries| && entries[i].key == keys[0]
      ensures keys != [] ==> forall i :: 0 <= i < |entries| ==> keys[0] <= entries[i].key
    {
      if entries == [] {
        return [];
      }
      var least := entries[0].key;
      var i := 1;
      while i < |entries|
        invariant 1 <= i <= |entries|
        invariant exists j :: 0 <= j < i && entries[j].key == least
        invariant forall j :: 0 <= j < i ==> least <= entries[j].key
      {
        if entries[i].key < least {
          least := entries[i].key;
        }
        i := i + 1;
      }
      keys := [least];
    }

    /** `messages_ref.child(key).delete()`; a missing key deletes nothing. */
    method Delete(key: nat)
      modifies this
      ensures entries == Without(old(entries), key) && nextKey == old(nextKey)
    {
      var kept: seq<Entry> := [];
      var i := 0;
      while i < |entries|
        invariant entries == old(entries) && nextKey == old(nextKey)
        invariant 0 <= i <= |entries|
        invariant kept == Without(entries[..i], key)
      {
        assert entries[..i + 1] == entries[..i] + [entries[i]];
        WithoutAppend(entries[..i], [entries[i]], key);
        if entries[i].key != key {
          kept := kept + [entries[i]];
        }
        i := i + 1;
      }
      assert entries[..i] == entries;
      entries := kept;
    }

    /**
     * Lines 135-137 of the handler: query the child with the smallest key and
     * delete every child the query returned. In a well-formed node that is
     * exactly the first child.
     */
    method DeleteOldest()
      requires Valid()
      modifies this
      ensures Valid() && nextKey == old(nextKey)
      ensures entries == if old(entries) == [] then [] else old(entries)[1..]
    {
      ghost var before := Model();
      var oldest := OldestKeys();
      if before.entries != [] {
        SmallestKeyIsFirst(before, oldest[0]);
      }
      var i := 0;
      while i < |oldest|
        invariant 0 <= i <= |oldest| && nextKey == before.nextKey
        invariant i == 0 ==> entries == before.entries
        invariant i > 0 ==> entries == before.entries[1..]
      {
        Delete(oldest[i]);
        i := i + 1;
      }
    }

    /**
     * The seeding loop of the text handler: while a read finds the node
     * empty, push the placeholder. It runs at most once.
     */
    method SeedIfEmpty()
      requires Valid()
      modifies this
      ensures Valid() && entries != []
      ensures Model() == if old(entries) == [] then Pushed(old(Model()), Placeholder) else old(Model())
    {
      var snapshot := Get();
      while snapshot == None
        invariant Valid()
        invariant snapshot == None <==> entries == []
        invariant old(entries) != [] ==> Model() == old(Model())
        invariant old(entries) == [] && entries == [] ==> Model() == old(Model())
        invariant old(entries) == [] && entries != [] ==> Model() == Pushed(old(Model()), Placeholder)
        decreases if snapshot == None then 1 else 0
      {
        Push(Placeholder);
        snapshot := Get();
      }
    }

    /**
     * The store-update branch of the text handler: seed an empty node, then
     * push the new record, and at capacity delete the oldest child.
     */
    method Record(userId: string, messageId: string, text: string)
      requires Valid()
      modifies this
      ensures Valid()
      ensures Model() == Recorded(old(Model()), userId, messageId, text)
    {
      SeedIfEmpty();
      ghost var seeded := Model();
      var snapshot := Get();
      var size := |snapshot.value|;
      if size >= Capacity {
        var order := Capacity - size;
        Push(Rec(order, userId, messageId, text));
        DeleteOldest();
        assert entries == seeded.entries[1..] + [Entry(seeded.nextKey, Rec(order, userId, messageId, text))];
      } else {
        var order := Capacity - size;
        Push(Rec(order, userId, messageId, text));
      }
    }
  }
}
