/** The `/subscribe` and `/unsubscribe` handlers of main.py. The JSON file
    `subscriptions.json` is represented by its contents: an ordered map
    from user id (as a string) to `true`. Each handler loads the file,
    changes it at most at the caller's id, saves it, and picks a reply. */
module Store {
  import opened Seqs
  import opened Dicts

  type Subscriptions = Dict<string, bool>

  datatype SubscribeReply = AlreadySubscribed | NewlySubscribed
  datatype UnsubscribeReply = Unsubscribed | NotSubscribed

  /** The two replies differ, so the user can tell which case happened. */
  function SubscribeText(r: SubscribeReply): (t: string)
    ensures r.AlreadySubscribed? <==> t == "You are already subscribed to daily menu updates."
    ensures r.NewlySubscribed? <==> t == "You have successfully subscribed to daily menu updates."
  {
    match r
    case AlreadySubscribed => "You are already subscribed to daily menu updates."
    case NewlySubscribed => "You have successfully subscribed to daily menu updates."
  }

  function UnsubscribeText(r: UnsubscribeReply): (t: string)
    ensures r.Unsubscribed? <==> t == "You have successfully unsubscribed from daily menu updates."
    ensures r.NotSubscribed? <==> t == "You are not currently subscribed to daily menu updates."
  {
    match r
    case Unsubscribed => "You have successfully unsubscribed from daily menu updates."
    case NotSubscribed => "You are not currently subscribed to daily menu updates."
  }

  /** What a load of a missing file gives: the empty store. */
  function NoSubscriptions(): (s: Subscriptions)
    ensures |s.entries| == 0 && |s.keys| == 0
  {
    Empty()
  }

  /** Every stored value is the marker `true`. */
  predicate AllTrue(s: Subscriptions)
  {
    forall u :: u in s.entries ==> s.entries[u]
  }

  /** `subscribe`: an id already present leaves the store as it is and
      picks the "already subscribed" reply; a new id is stored with `true`
      behind all earlier ids, nothing else changes, and the "successfully
      subscribed" reply is picked. */
  function Subscribe(s: Subscriptions, user: string): (r: (Subscriptions, SubscribeReply))
    ensures r.1 == AlreadySubscribed <==> user in s.entries
    ensures user in s.entries ==> r.0 == s
    ensures user in r.0.entries
    ensures user !in s.entries ==> r.0.entries[user]
    ensures forall u :: u != user ==> (u in r.0.entries <==> u in s.entries)
    ensures forall u :: u != user && u in s.entries ==> r.0.entries[u] == s.entries[u]
    ensures user !in s.entries ==> r.0.keys == s.keys + [user]
    ensures |r.0.entries| == |s.entries| + (if user in s.entries then 0 else 1)
  {
    if user in s.entries then
      (s, AlreadySubscribed)
    else
      var s' := Put(s, user, true);
      assert s'.entries == s.entries[user := true];
      (s', NewlySubscribed)
  }

  /** `unsubscribe`: a present id is removed and nothing else changes, the
      remaining ids keeping their order, with the "successfully
      unsubscribed" reply; an absent id leaves the store as it is and picks
      the "not currently subscribed" reply. */
  function Unsubscribe(s: Subscriptions, user: string): (r: (Subscriptions, UnsubscribeReply))
    ensures r.1 == Unsubscribed <==> user in s.entries
    ensures user !in s.entries ==> r.0 == s
    ensures user !in r.0.entries
    ensures forall u :: u != user ==> (u in r.0.entries <==> u in s.entries)
    ensures forall u :: u != user && u in s.entries ==> r.0.entries[u] == s.entries[u]
    ensures r.0.keys == RemoveValue(s.keys, user)
    ensures |r.0.entries| == |s.entries| - (if user in s.entries then 1 else 0)
  {
    if user in s.entries then
      var s' := Delete(s, user);
      assert s'.entries == s.entries - {user};
      (s', Unsubscribed)
    else
      assert user !in s.keys;
      RemoveValueAbsent(s.keys, user);
      (s, NotSubscribed)
  }

  /** Subscribing twice is subscribing once; the second call only replies
      "already subscribed". */
  lemma SubscribeIdempotent(s: Subscriptions, user: string)
    ensures var s1 := Subscribe(s, user).0;
      Subscribe(s1, user) == (s1, AlreadySubscribed)
  {
  }

  /** Subscribing a new id and unsubscribing it again restores the store,
      including the order of the other ids. */
  lemma SubscribeThenUnsubscribe(s: Subscriptions, user: string)
    requires user !in s.entries
    ensures Unsubscribe(Subscribe(s, user).0, user) == (s, Unsubscribed)
  {
    PutThenDelete(s, user, true);
  }

  /** Unsubscribing a subscribed id and subscribing it again restores the
      stored map; only the id's position moves to the end. */
  lemma UnsubscribeThenSubscribe(s: Subscriptions, user: string)
    requires AllTrue(s)
    requires user in s.entries
    ensures Subscribe(Unsubscribe(s, user).0, user).0.entries == s.entries
    ensures Subscribe(Unsubscribe(s, user).0, user).1 == NewlySubscribed
  {
    var s2 := Subscribe(Unsubscribe(s, user).0, user).0;
    assert s2.entries.Keys == s.entries.Keys;
  }

  /** Both handlers keep the file's values all `true`. */
  lemma HandlersKeepMarkers(s: Subscriptions, user: string)
    requires AllTrue(s)
    ensures AllTrue(Subscribe(s, user).0)
    ensures AllTrue(Unsubscribe(s, user).0)
  {
  }
}
