/** The event-callback half of `Mailer.php`: the tracking map that
    `setTracking` fills, the decision `activateTracking` takes on the
    provider's answers, and the guard of `clearTracking`. The provider calls
    themselves are not modelled; their answers are parameters. */
module Tracking {
  import opened Results
  import opened Php
  import opened Mailer

  /** The events the provider accepts callbacks for. */
  const AllowedEvents: seq<string> := ["sent", "open", "click", "bounce", "spam", "blocked", "unsub"]

  predicate Allowed(event: string)
  {
    event in AllowedEvents
  }

  /** The argument of `setTracking`: an array of event to URL, or anything
      else. */
  datatype TrackingArg = NotArray | Events(entries: Assoc<string>)

  /** The checks `setTracking` makes on one entry: the event first, then the
      URL, which `validUrl` stands in for the framework's URL validator. */
  function CheckEntry(event: string, url: string, validUrl: string -> bool): (r: Option<ConfigError>)
    ensures r.None? <==> Allowed(event) && validUrl(url)
    ensures r == Some(UnsupportedEvent(event)) <==> !Allowed(event)
    ensures r == Some(NotAUrl(event)) <==> Allowed(event) && !validUrl(url)
  {
    if !Allowed(event) then Some(UnsupportedEvent(event))
    else if !validUrl(url) then Some(NotAUrl(event))
    else None
  }

  /** The position of the first entry the checks reject, or the number of
      entries when none is rejected. */
  function FirstRejected(entries: Assoc<string>, validUrl: string -> bool): (n: nat)
    ensures n <= |entries|
    ensures forall i :: 0 <= i < n ==> CheckEntry(entries[i].0, entries[i].1, validUrl).None?
    ensures n < |entries| ==> CheckEntry(entries[n].0, entries[n].1, validUrl).Some?
  {
    if |entries| == 0 then 0
    else if CheckEntry(entries[0].0, entries[0].1, validUrl).Some? then 0
    else
      var n := 1 + FirstRejected(entries[1..], validUrl);
      assert forall i :: 1 <= i < |entries| ==> entries[i] == entries[1..][i - 1];
      n
  }

  /** Every stored event is one the provider accepts, with a URL the
      validator accepts. */
  ghost predicate Tracked(t: Assoc<string>, validUrl: string -> bool)
  {
    forall k :: HasKey(t, k) ==> Allowed(k) && validUrl(Lookup(t, k).value)
  }

  /** `setTracking`: each entry in turn is checked and then stored, so a
      rejected entry ends the call with the entries before it already
      stored. `t` is the tracking map before the call; `t'` is the map
      after, and `err` the exception raised, if any. */
  method SetTracking(t: Assoc<string>, arg: TrackingArg, validUrl: string -> bool)
    returns (t': Assoc<string>, err: Option<ConfigError>)
    requires arg.Events? ==> DistinctKeys(arg.entries)
    ensures arg.NotArray? ==> t' == t && err == Some(NotAnArray)
    ensures arg.Events? ==>
      var e, n := arg.entries, FirstRejected(arg.entries, validUrl);
      && (err.None? <==> n == |e|)
      && (err.Some? ==> err == CheckEntry(e[n].0, e[n].1, validUrl))
      && DistinctKeys(e[..n])
      && t' == Merge(t, e[..n])
    ensures arg.Events? ==>
      var e, n := arg.entries, FirstRejected(arg.entries, validUrl);
      && (forall k :: HasKey(t', k) <==> HasKey(t, k) || HasKey(e[..n], k))
      && (forall k :: !HasKey(e[..n], k) ==> Lookup(t', k) == Lookup(t, k))
      && (forall i :: 0 <= i < n ==> Lookup(t', e[i].0) == Some(e[i].1))
    ensures DistinctKeys(t) ==> DistinctKeys(t')
    ensures Tracked(t, validUrl) ==> Tracked(t', validUrl)
  {
    if arg.NotArray? {
      return t, Some(NotAnArray);
    }
    var e := arg.entries;
    ghost var n := FirstRejected(e, validUrl);
    t', err := t, None;
    var i := 0;
    assert e[..0] == [];
    while i < |e|
      invariant i <= n
      invariant DistinctKeys(e[..i])
      invariant t' == Merge(t, e[..i])
      invariant Tracked(t, validUrl) ==> Tracked(t', validUrl)
    {
      var rejected := CheckEntry(e[i].0, e[i].1, validUrl);
      if rejected.Some? {
        assert i == n;
        err := rejected;
        break;
      }
      assert i < n;
      MergePrefixStep(t, e, i);
      if Tracked(t, validUrl) {
        TrackedSet(t', e[i].0, e[i].1, validUrl);
      }
      t' := Set(t', e[i].0, e[i].1);
      i := i + 1;
    }
    assert i == n;
    MergePrefixEntries(t, e, n);
  }

  /** Storing an accepted entry keeps the map tracked. */
  lemma TrackedSet(t: Assoc<string>, event: string, url: string, validUrl: string -> bool)
    requires Tracked(t, validUrl) && Allowed(event) && validUrl(url)
    ensures Tracked(Set(t, event, url), validUrl)
  {
  }

  /** The provider's side of an activation, which the model does not
      implement: whether posting a callback request creates the callback,
      and the URL of the callback already registered for an event (`None`
      when the provider lists none). */
  datatype Provider = Provider(post: Assoc<string> -> bool, registered: string -> Option<string>)

  /** The `UserException` asking for the old callback to be cleared first. */
  datatype TrackingError = ClearFirst(event: string)

  /** The body `activateTracking` posts. */
  function CallbackRequest(event: string, url: string): (r: Assoc<string>)
    ensures DistinctKeys(r)
    ensures Lookup(r, "EventType") == Some(event) && Lookup(r, "Url") == Some(url)
    ensures forall k :: HasKey(r, k) <==> k == "EventType" || k == "Url"
  {
    var tail := [("Url", url)];
    assert tail[1..] == [];
    assert !HasKey(tail, "EventType") && DistinctKeys(tail);
    assert forall k :: HasKey(tail, k) <==> k == "Url";
    var r := [("EventType", event)] + tail;
    assert r[1..] == tail;
    r
  }

  /** PHP's `==` between the registered URL, `null` when absent, and the
      requested one: `null` equals only the empty string. */
  predicate SameUrl(existing: Option<string>, url: string)
  {
    match existing
    case None => url == ""
    case Some(u) => u == url
  }

  /** `activateTracking`: the request for `event` and `url` is posted; the
      result is true when the callback was created, or when the one already
      registered has the requested URL; otherwise the caller is told to
      clear the old callback first. */
  function ActivateTracking(event: string, url: string, provider: Provider): (r: Result<bool, TrackingError>)
    ensures provider.post(CallbackRequest(event, url)) ==> r == Success(true)
    ensures r.Success? <==> provider.post(CallbackRequest(event, url)) || SameUrl(provider.registered(event), url)
    ensures r.Success? ==> r.value
    ensures r.Failure? ==> r.error == ClearFirst(event) && provider.registered(event) != Some(url)
  {
    var created := provider.post(CallbackRequest(event, url));
    if !created && !SameUrl(provider.registered(event), url) then Failure(ClearFirst(event))
    else Success(true)
  }

  /** `activateAllTrackings`: every stored callback in order, stopping at the
      first one that raises. */
  function ActivateAll(t: Assoc<string>, provider: Provider): (r: Result<bool, TrackingError>)
    ensures r.Success? <==> forall i :: 0 <= i < |t| ==> ActivateTracking(t[i].0, t[i].1, provider).Success?
    ensures r.Success? ==> r.value
    ensures r.Failure? ==> exists i :: (0 <= i < |t|
      && ActivateTracking(t[i].0, t[i].1, provider) == Failure(r.error)
      && (forall j :: 0 <= j < i ==> ActivateTracking(t[j].0, t[j].1, provider).Success?))
  {
    if |t| == 0 then Success(true)
    else
      var first := ActivateTracking(t[0].0, t[0].1, provider);
      assert forall i :: 1 <= i < |t| ==> t[i] == t[1..][i - 1];
      if first.Failure? then first
      else
        match ActivateAll(t[1..], provider)
        case Success(b) => Success(b)
        case Failure(e) =>
          var i :| 0 <= i < |t[1..]|
            && ActivateTracking(t[1..][i].0, t[1..][i].1, provider) == Failure(e)
            && (forall j :: 0 <= j < i ==> ActivateTracking(t[1..][j].0, t[1..][j].1, provider).Success?);
          assert ActivateTracking(t[i + 1].0, t[i + 1].1, provider) == Failure(e);
          assert forall j :: 0 <= j < i + 1 ==> ActivateTracking(t[j].0, t[j].1, provider).Success?;
          Failure(e)
  }

  /** Activating again is harmless: when the provider already holds every
      stored event with its stored URL, activation succeeds whether or not
      the posts create anything, and it fails only on an event registered
      under another URL. */
  lemma {:induction false} ActivateAllRegistered(t: Assoc<string>, provider: Provider)
    ensures (forall i :: 0 <= i < |t| ==> provider.registered(t[i].0) == Some(t[i].1)) ==>
      ActivateAll(t, provider) == Success(true)
    ensures ActivateAll(t, provider).Failure? ==>
      exists i :: 0 <= i < |t| && provider.registered(t[i].0) != Some(t[i].1)
    decreases |t|
  {
    if |t| > 0 {
      ActivateAllRegistered(t[1..], provider);
      assert forall i :: 1 <= i < |t| ==> t[i] == t[1..][i - 1];
    }
  }

  /** `clearTracking`: an event outside the allowed list is refused; any
      other is the event whose callback is deleted. */
  function ClearTracking(event: string): (r: Result<string, ConfigError>)
    ensures r.Success? <==> event in AllowedEvents
    ensures r.Success? ==> r.value == event
    ensures r.Failure? ==> r.error == UnsupportedEvent(event)
  {
    if !Allowed(event) then Failure(UnsupportedEvent(event)) else Success(event)
  }

  /** `clearAllTrackings`: `clearTracking` for each stored event in order,
      stopping at the first refusal; on success, the events deleted. */
  function ClearAll(t: Assoc<string>): (r: Result<seq<string>, ConfigError>)
    ensures r.Success? <==> forall i :: 0 <= i < |t| ==> Allowed(t[i].0)
    ensures r.Success? ==> r.value == Keys(t)
    ensures r.Failure? ==> exists i :: (0 <= i < |t| && !Allowed(t[i].0)
      && r.error == UnsupportedEvent(t[i].0) && forall j :: 0 <= j < i ==> Allowed(t[j].0))
  {
    if |t| == 0 then Success([])
    else
      assert forall i :: 1 <= i < |t| ==> t[i] == t[1..][i - 1];
      match ClearTracking(t[0].0)
      case Failure(e) => Failure(e)
      case Success(event) =>
        match ClearAll(t[1..])
        case Failure(e) =>
          var i :| 0 <= i < |t[1..]| && !Allowed(t[1..][i].0)
            && e == UnsupportedEvent(t[1..][i].0) && forall j :: 0 <= j < i ==> Allowed(t[1..][j].0);
          assert !Allowed(t[i + 1].0);
          Failure(e)
        case Success(events) =>
          assert [event] + events == Keys(t);
          Success([event] + events)
  }

  /** A map that `setTracking` filled is always cleared in full: every stored
      event is deleted, in the order it was stored. */
  lemma ClearAllTracked(t: Assoc<string>, validUrl: string -> bool)
    requires Tracked(t, validUrl)
    ensures ClearAll(t) == Success(Keys(t))
  {
    forall i | 0 <= i < |t| ensures Allowed(t[i].0) {
      HasKeyAt(t, t[i].0);
    }
  }
}
