/** Subscriber fan-out: the registry of buffered channels, `Subscribe` with the function it returns,
    and `broadcast`. The methods are uninterrupted, so a broadcast overlaps no unsubscribe. */
module Subscribers {
  import opened Sequences

  const BUFFER_CAPACITY: nat := 16

  type ChannelId = nat

  /** A job id; it is a UUID and so never the wildcard. */
  type JobKey = key: string | key != "*" witness ""

  datatype Event = Event(id: JobKey, body: string)

  /** A channel. What its reader took and which broadcast it has seen first are kept as history. */
  datatype Channel = Channel(key: string, buffer: seq<Event>, received: seq<Event>, since: nat, closes: nat)

  predicate Matches(key: string, e: Event) {
    key == "*" || key == e.id
  }

  /** The broadcasts that a subscriber of `key` is to see. */
  function Matching(key: string, events: seq<Event>): seq<Event> {
    if events == [] then []
    else Matching(key, events[..|events| - 1]) + (if Matches(key, events[|events| - 1]) then [events[|events| - 1]] else [])
  }

  /** `a` is a subsequence of `b`: in the same order, with gaps. */
  predicate Subsequence(a: seq<Event>, b: seq<Event>) {
    if a == [] then true
    else if b == [] then false
    else if a[|a| - 1] == b[|b| - 1] then Subsequence(a[..|a| - 1], b[..|b| - 1])
    else Subsequence(a, b[..|b| - 1])
  }

  lemma {:induction false} SubsequenceSkip(a: seq<Event>, b: seq<Event>, e: Event)
    requires Subsequence(a, b)
    ensures Subsequence(a, b + [e])
    decreases |b|, 1
  {
    assert (b + [e])[..|b|] == b;
    if a != [] && a[|a| - 1] == e {
      SubsequenceDropLast(a, b);
    }
  }

  lemma {:induction false} SubsequenceDropLast(a: seq<Event>, b: seq<Event>)
    requires a != [] && Subsequence(a, b)
    ensures Subsequence(a[..|a| - 1], b)
    decreases |b|, 0
  {
    var init, last := b[..|b| - 1], b[|b| - 1];
    assert init + [last] == b;
    if a[|a| - 1] != last {
      SubsequenceDropLast(a, init);
    }
    SubsequenceSkip(a[..|a| - 1], init, last);
  }

  lemma SubsequenceAppend(a: seq<Event>, b: seq<Event>, e: Event)
    requires Subsequence(a, b)
    ensures Subsequence(a + [e], b + [e])
  {
  }

  /** The elements of `a` stand in `b` at the ascending positions `at`. */
  predicate Embeds(a: seq<Event>, b: seq<Event>, at: seq<nat>) {
    && |at| == |a|
    && (forall i, j :: 0 <= i < j < |at| ==> at[i] < at[j])
    && forall i :: 0 <= i < |at| ==> at[i] < |b| && b[at[i]] == a[i]
  }

  lemma {:induction false} SubsequenceEmbeds(a: seq<Event>, b: seq<Event>) returns (at: seq<nat>)
    requires Subsequence(a, b)
    ensures Embeds(a, b, at)
    decreases |b|
  {
    at := [];
    if a != [] {
      var m, n := |a| - 1, |b| - 1;
      if a[m] == b[n] {
        at := SubsequenceEmbeds(a[..m], b[..n]);
        at := at + [n];
      } else {
        at := SubsequenceEmbeds(a, b[..n]);
      }
    }
  }

  lemma {:induction false} EmbeddedIsSubsequence(a: seq<Event>, b: seq<Event>, at: seq<nat>)
    requires Embeds(a, b, at)
    ensures Subsequence(a, b)
    decreases |b|
  {
    if a != [] {
      var m, n := |a| - 1, |b| - 1;
      assert at[m] <= n;
      if at[m] == n || a[m] == b[n] {
        EmbeddedIsSubsequence(a[..m], b[..n], at[..m]);
      } else {
        EmbeddedIsSubsequence(a, b[..n], at);
      }
    }
  }

  /** A subsequence is one by its positions. */
  lemma SubsequenceIs(a: seq<Event>, b: seq<Event>)
    ensures Subsequence(a, b) <==> exists at :: Embeds(a, b, at)
  {
    if Subsequence(a, b) {
      var at := SubsequenceEmbeds(a, b);
    }
    if at :| Embeds(a, b, at) {
      EmbeddedIsSubsequence(a, b, at);
    }
  }

  lemma MatchingSnoc(key: string, events: seq<Event>, e: Event)
    ensures Matching(key, events + [e]) == Matching(key, events) + (if Matches(key, e) then [e] else [])
  {
  }

  /** A non-blocking send. */
  function SendEvent(c: Channel, e: Event): Channel {
    if |c.buffer| < BUFFER_CAPACITY then c.(buffer := c.buffer + [e]) else c
  }

  /** What a channel has delivered or holds is a subsequence of what was broadcast for its key. */
  predicate Delivered(c: Channel, log: seq<Event>) {
    && c.since <= |log| && |c.buffer| <= BUFFER_CAPACITY
    && Subsequence(c.received + c.buffer, Matching(c.key, log[c.since..]))
  }

  /** A broadcast keeps `Delivered`, whether or not the channel is offered the event. */
  lemma DeliveredStep(c: Channel, log: seq<Event>, e: Event)
    requires Delivered(c, log)
    ensures Delivered(c, log + [e])
    ensures Matches(c.key, e) ==> Delivered(SendEvent(c, e), log + [e])
  {
    assert (log + [e])[c.since..] == log[c.since..] + [e];
    MatchingSnoc(c.key, log[c.since..], e);
    if Matches(c.key, e) {
      SubsequenceSkip(c.received + c.buffer, Matching(c.key, log[c.since..]), e);
      SubsequenceAppend(c.received + c.buffer, Matching(c.key, log[c.since..]), e);
      assert c.received + (c.buffer + [e]) == c.received + c.buffer + [e];
    } else {
      assert Matching(c.key, log[c.since..]) + [] == Matching(c.key, log[c.since..]);
    }
  }

  /** What happens to a channel: an event is broadcast, or its reader takes the oldest one. */
  datatype Action = Sent(e: Event) | Taken

  function Act(c: Channel, action: Action): Channel {
    match action
    case Sent(e) => if Matches(c.key, e) then SendEvent(c, e) else c
    case Taken => if c.buffer == [] then c else c.(buffer := c.buffer[1..], received := c.received + [c.buffer[0]])
  }

  /** The channel after the first n actions. */
  function After(c: Channel, actions: seq<Action>, n: nat): Channel
    requires n <= |actions|
  {
    if n == 0 then c else Act(After(c, actions, n - 1), actions[n - 1])
  }

  /** The events broadcast in the first n actions. */
  function Broadcasts(actions: seq<Action>, n: nat): seq<Event>
    requires n <= |actions|
  {
    if n == 0 then []
    else Broadcasts(actions, n - 1) + (if actions[n - 1].Sent? then [actions[n - 1].e] else [])
  }

  /** Whenever an event for the channel is broadcast there is room for it. */
  ghost predicate KeepsUp(c: Channel, actions: seq<Action>, n: nat)
    requires n <= |actions|
  {
    forall k :: 0 <= k < n && actions[k].Sent? && Matches(c.key, actions[k].e) ==> |After(c, actions, k).buffer| < BUFFER_CAPACITY
  }

  /** What the channel has delivered or holds. */
  function Seen(c: Channel): seq<Event> {
    c.received + c.buffer
  }

  lemma ActSees(c: Channel, action: Action)
    ensures Act(c, action).key == c.key
    ensures Seen(Act(c, action)) ==
      if action.Sent? && Matches(c.key, action.e) && |c.buffer| < BUFFER_CAPACITY then Seen(c) + [action.e] else Seen(c)
  {
    if action.Taken? && c.buffer != [] {
      assert c.buffer == [c.buffer[0]] + c.buffer[1..];
    }
  }

  lemma {:induction false} KeyStays(c: Channel, actions: seq<Action>, n: nat)
    requires n <= |actions|
    ensures After(c, actions, n).key == c.key
  {
    if n > 0 {
      KeyStays(c, actions, n - 1);
      ActSees(After(c, actions, n - 1), actions[n - 1]);
    }
  }

  /** What the reader is to see grows by an action that is a broadcast for it. */
  lemma MatchingStep(key: string, actions: seq<Action>, n: nat)
    requires n < |actions|
    ensures Matching(key, Broadcasts(actions, n + 1)) ==
      Matching(key, Broadcasts(actions, n)) + (if actions[n].Sent? && Matches(key, actions[n].e) then [actions[n].e] else [])
  {
    if actions[n].Sent? {
      MatchingSnoc(key, Broadcasts(actions, n), actions[n].e);
    } else {
      assert Broadcasts(actions, n + 1) == Broadcasts(actions, n);
    }
  }

  lemma {:induction false} SeenBounded(c: Channel, actions: seq<Action>, n: nat)
    requires n <= |actions|
    ensures KeepsUp(c, actions, n) ==> Seen(After(c, actions, n)) == Seen(c) + Matching(c.key, Broadcasts(actions, n))
    ensures |Seen(After(c, actions, n))| <= |Seen(c)| + |Matching(c.key, Broadcasts(actions, n))|
    ensures !KeepsUp(c, actions, n) ==> |Seen(After(c, actions, n))| < |Seen(c)| + |Matching(c.key, Broadcasts(actions, n))|
  {
    hide Act, Matching, Broadcasts, Seen;
    if n > 0 {
      SeenBounded(c, actions, n - 1);
      KeyStays(c, actions, n - 1);
      ActSees(After(c, actions, n - 1), actions[n - 1]);
      MatchingStep(c.key, actions, n - 1);
    } else {
      NothingSent(c.key, actions);
    }
  }

  lemma NothingSent(key: string, actions: seq<Action>)
    ensures Matching(key, Broadcasts(actions, 0)) == []
  {
  }

  /** Over any broadcasts and takes a subscriber sees every event for its key, in order, exactly when its
      buffer has room at each of them. */
  lemma CompleteIffKeepsUp(c: Channel, actions: seq<Action>)
    ensures Seen(After(c, actions, |actions|)) == Seen(c) + Matching(c.key, Broadcasts(actions, |actions|))
      <==> KeepsUp(c, actions, |actions|)
  {
    SeenBounded(c, actions, |actions|);
  }

  type Registry = map<string, seq<ChannelId>>
  type Channels = map<ChannelId, Channel>

  function Registered(registry: Registry, key: string): seq<ChannelId> {
    if key in registry then registry[key] else []
  }

  predicate Open(channels: Channels, id: ChannelId, key: string) {
    id in channels && channels[id].key == key && channels[id].closes == 0
  }

  /** The registry lists, without repetition, exactly the open channels of each key. */
  ghost predicate RegistryOk(registry: Registry, channels: Channels) {
    && (forall key :: Distinct(Registered(registry, key)))
    && (forall key, id :: id in Registered(registry, key) <==> Open(channels, id, key))
  }

  ghost predicate ChannelsOk(channels: Channels, log: seq<Event>) {
    forall id :: id in channels ==> channels[id].closes <= 1 && Delivered(channels[id], log)
  }

  /** Taking one occurrence out of a list without repetition takes out exactly that id. */
  lemma RemoveOne(left: seq<ChannelId>, ch: ChannelId, right: seq<ChannelId>)
    requires Distinct(left + [ch] + right)
    ensures Distinct(left + right)
    ensures forall id :: id in left + right <==> id in left + [ch] + right && id != ch
  {
    var all := left + [ch] + right;
    assert all[|left|] == ch;
    forall i | 0 <= i < |left + right|
      ensures (left + right)[i] == all[if i < |left| then i else i + 1]
    {
    }
    forall id | id in all && id != ch
      ensures id in left + right
    {
      var k :| 0 <= k < |all| && all[k] == id;
      assert k != |left|;
      assert (left + right)[if k < |left| then k else k - 1] == id;
    }
  }

  /** The targets of a broadcast: each open channel with a matching key, once. */
  lemma TargetsExact(registry: Registry, channels: Channels, e: Event)
    requires RegistryOk(registry, channels)
    ensures var targets := Registered(registry, e.id) + Registered(registry, "*");
      && Distinct(targets)
      && forall id :: id in targets <==> id in channels && channels[id].closes == 0 && Matches(channels[id].key, e)
  {
    var a, b := Registered(registry, e.id), Registered(registry, "*");
    forall i, j | 0 <= i < j < |a + b|
      ensures (a + b)[i] != (a + b)[j]
    {
      if i < |a| <= j {
        assert a[i] in a && b[j - |a|] in b;
        assert Open(channels, a[i], e.id) && Open(channels, b[j - |a|], "*");
      }
    }
    forall id | id in channels && channels[id].closes == 0 && Matches(channels[id].key, e)
      ensures id in a + b
    {
      assert Open(channels, id, channels[id].key);
    }
    forall id | id in a + b
      ensures id in channels && channels[id].closes == 0 && Matches(channels[id].key, e)
    {
      assert Open(channels, id, e.id) || Open(channels, id, "*");
    }
  }

  class Hub {
    var registry: Registry
    var channels: Channels
    var log: seq<Event>           // history: every broadcast so far

    ghost predicate Valid()
      reads this
    {
      RegistryOk(registry, channels) && ChannelsOk(channels, log)
    }

    constructor ()
      ensures Valid() && registry == map[] && channels == map[] && log == []
    {
      registry, channels, log := map[], map[], [];
    }

    /** `ch` is the identity of the new channel. */
    method Subscribe(key: string, ch: ChannelId)
      requires Valid() && ch !in channels
      modifies this`registry, this`channels
      ensures Valid()
      ensures registry == old(registry)[key := Registered(old(registry), key) + [ch]]
      ensures channels == old(channels)[ch := Channel(key, [], [], |log|, 0)]
    {
      assert !Open(channels, ch, key);
      ghost var before := registry;
      ghost var open := channels;
      registry := registry[key := Registered(registry, key) + [ch]];
      channels := channels[ch := Channel(key, [], [], |log|, 0)];
      assert log[|log|..] == [];
      forall k, id
        ensures id in Registered(registry, k) <==> Open(channels, id, k)
      {
        assert id in Registered(before, k) <==> Open(open, id, k);
      }
      forall k
        ensures Distinct(Registered(registry, k))
      {
        assert Distinct(Registered(before, k));
        assert ch !in Registered(before, key);
      }
    }

    /** The function that Subscribe returns, for channel `ch`: the first call removes exactly `ch`
        from the list of its key, keeps the others in order and closes it; later calls do nothing. */
    method Unsubscribe(ch: ChannelId)
      requires Valid() && ch in channels
      modifies this`registry, this`channels
      ensures Valid()
      ensures old(channels)[ch].closes == 1 ==> registry == old(registry) && channels == old(channels)
      ensures old(channels)[ch].closes == 0 ==>
        && channels == old(channels)[ch := old(channels)[ch].(closes := 1)]
        && exists left, right :: Registered(old(registry), channels[ch].key) == left + [ch] + right
             && registry == old(registry)[channels[ch].key := left + right]
    {
      hide Delivered;
      var key := channels[ch].key;
      var subs := Registered(registry, key);
      assert ch in subs <==> Open(channels, ch, key);
      var i := 0;
      while i < |subs|
        invariant 0 <= i <= |subs|
        invariant ch !in subs[..i]
      {
        if subs[i] == ch {
          ghost var before := registry;
          ghost var open := channels;
          registry := registry[key := subs[..i] + subs[i + 1..]];
          channels := channels[ch := channels[ch].(closes := channels[ch].closes + 1)];
          assert subs == subs[..i] + [ch] + subs[i + 1..];
          assert Distinct(Registered(before, key));
          RemoveOne(subs[..i], ch, subs[i + 1..]);
          RegistryAfterRemove(before, open, ch, subs[..i] + subs[i + 1..]);
          CloseKeepsDelivered(open, log, ch);
          return;
        }
        i := i + 1;
      }
      assert subs[..i] == subs;
    }

    /** Offers the event to the subscribers of its id, then to those of "*": every open channel with a
        matching key is offered it once, and no other channel is touched. */
    method Broadcast(e: Event)
      requires Valid()
      modifies this`channels, this`log
      ensures Valid() && log == old(log) + [e]
      ensures channels.Keys == old(channels).Keys
      ensures forall id :: id in channels ==>
        channels[id] ==
          if old(channels)[id].closes == 0 && (old(channels)[id].key == "*" || old(channels)[id].key == e.id) && |old(channels)[id].buffer| < 16
          then old(channels)[id].(buffer := old(channels)[id].buffer + [e]) else old(channels)[id]
    {
      hide RegistryOk, ChannelsOk, Registered, Delivered;
      var targets := Registered(registry, e.id) + Registered(registry, "*");
      TargetsExact(registry, channels, e);
      ghost var before := channels;
      var i := 0;
      while i < |targets|
        invariant 0 <= i <= |targets|
        invariant channels.Keys == before.Keys && log == old(log)
        invariant forall id :: id in before ==> channels[id] == if id in targets[..i] then SendEvent(before[id], e) else before[id]
      {
        var c := targets[i];
        assert c in targets && c !in targets[..i];
        if |channels[c].buffer| < BUFFER_CAPACITY {
          channels := channels[c := channels[c].(buffer := channels[c].buffer + [e])];
        }
        assert targets[..i + 1] == targets[..i] + [c];
        i := i + 1;
      }
      assert targets[..i] == targets;
      log := log + [e];
      BroadcastKeeps(registry, before, channels, old(log), e);
    }

    /** The subscriber takes the oldest buffered event. */
    method Take(ch: ChannelId) returns (e: Event)
      requires Valid() && ch in channels && channels[ch].buffer != []
      modifies this`channels
      ensures Valid()
      ensures e == old(channels)[ch].buffer[0]
      ensures channels == old(channels)[ch := old(channels)[ch].(buffer := old(channels)[ch].buffer[1..], received := old(channels)[ch].received + [e])]
    {
      hide RegistryOk, ChannelsOk;
      e := channels[ch].buffer[0];
      var c := channels[ch];
      ghost var before := channels;
      channels := channels[ch := c.(buffer := c.buffer[1..], received := c.received + [e])];
      TakeKeeps(registry, before, log, ch);
    }
  }

  /** A receive keeps what is registered and what is delivered. */
  lemma TakeKeeps(registry: Registry, channels: Channels, log: seq<Event>, ch: ChannelId)
    requires RegistryOk(registry, channels) && ChannelsOk(channels, log) && ch in channels
    ensures RegistryOk(registry, channels[ch := Act(channels[ch], Taken)])
    ensures ChannelsOk(channels[ch := Act(channels[ch], Taken)], log)
  {
    var after := channels[ch := Act(channels[ch], Taken)];
    ActSees(channels[ch], Taken);
    forall k, id
      ensures id in Registered(registry, k) <==> Open(after, id, k)
    {
      assert id in Registered(registry, k) <==> Open(channels, id, k);
    }
  }

  lemma CloseKeepsDelivered(channels: Channels, log: seq<Event>, ch: ChannelId)
    requires ChannelsOk(channels, log) && ch in channels
    ensures ChannelsOk(channels[ch := channels[ch].(closes := 1)], log)
  {
  }

  lemma RegistryAfterRemove(registry: Registry, channels: Channels, ch: ChannelId, rest: seq<ChannelId>)
    requires RegistryOk(registry, channels) && ch in channels && channels[ch].closes == 0 && Distinct(rest)
    requires forall id :: id in rest <==> id in Registered(registry, channels[ch].key) && id != ch
    ensures RegistryOk(registry[channels[ch].key := rest], channels[ch := channels[ch].(closes := 1)])
  {
    var key := channels[ch].key;
    var registry', channels' := registry[key := rest], channels[ch := channels[ch].(closes := 1)];
    forall k
      ensures Distinct(Registered(registry', k))
    {
      assert Distinct(Registered(registry, k));
    }
    forall k, id
      ensures id in Registered(registry', k) <==> Open(channels', id, k)
    {
      assert id in Registered(registry, k) <==> Open(channels, id, k);
    }
  }

  lemma BroadcastKeeps(registry: Registry, before: Channels, after: Channels, log: seq<Event>, e: Event)
    requires RegistryOk(registry, before) && ChannelsOk(before, log) && after.Keys == before.Keys
    requires forall id :: id in before ==>
      after[id] == if before[id].closes == 0 && Matches(before[id].key, e) then SendEvent(before[id], e) else before[id]
    ensures RegistryOk(registry, after)
    ensures ChannelsOk(after, log + [e])
  {
    forall id | id in after
      ensures after[id].closes <= 1 && Delivered(after[id], log + [e])
    {
      DeliveredStep(before[id], log, e);
    }
    forall k, id
      ensures id in Registered(registry, k) <==> Open(after, id, k)
    {
      assert id in Registered(registry, k) <==> Open(before, id, k);
    }
  }
}
