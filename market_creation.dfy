/**
 * The promise `createNewMarket` returns, settled by its default status
 * callback: on an in-block status it walks the block's events, and the
 * first `MarketCreated` (its first data item, the new market id) or
 * `ExtrinsicFailed` (the empty string) settles it. A promise keeps only its
 * first resolution, so later events cannot change the value.
 */
module MarketCreation {
  import opened Wrappers

  const MarketCreated: string := "MarketCreated"
  const ExtrinsicFailed: string := "ExtrinsicFailed"

  /** One event record of the block: its method name (`name`) and its data items as text. */
  datatype Event = Event(section: string, name: string, data: seq<string>)

  /** The status of a submitted extrinsic; only `InBlock` matters here. */
  datatype ExtrinsicStatus = InBlock(blockHash: string) | OtherStatus(name: string)

  /** One status update passed to the callback. */
  datatype SubmittableResult = SubmittableResult(status: ExtrinsicStatus, events: seq<Event>)

  /** What handling one event does to the walk. */
  datatype Step = Resolve(value: string) | Throw | Continue

  /**
   * `MarketCreated` resolves with `data[0]` (reading it throws when the
   * event has no data), `ExtrinsicFailed` resolves with "", any other
   * event lets the walk continue.
   */
  function EventStep(e: Event): (r: Step)
    ensures r.Continue? <==> !Decisive(e)
    ensures r.Throw? <==> e.name == MarketCreated && |e.data| == 0
    ensures r.Resolve? && e.name == MarketCreated ==> r.value == e.data[0]
    ensures r.Resolve? && e.name != MarketCreated ==> r.value == ""
  {
    if e.name == MarketCreated then (if |e.data| > 0 then Resolve(e.data[0]) else Throw)
    else if e.name == ExtrinsicFailed then Resolve("")
    else Continue
  }

  /** An event that ends the search for the promise's value. */
  predicate Decisive(e: Event)
  {
    e.name == MarketCreated || e.name == ExtrinsicFailed
  }

  predicate HasDecisive(events: seq<Event>)
  {
    exists k :: 0 <= k < |events| && Decisive(events[k])
  }

  /** The value the walk over `events` settles the promise with, if any. */
  function FirstResolution(events: seq<Event>): (r: Option<string>)
    ensures r.Some? ==> HasDecisive(events)
  {
    if events == [] then None
    else
      match EventStep(events[0])
      case Resolve(v) => Some(v)
      case Throw => None
      case Continue =>
        var rest := FirstResolution(events[1..]);
        assert rest.Some? ==> HasDecisive(events) by {
          if rest.Some? {
            var k :| 0 <= k < |events[1..]| && Decisive(events[1..][k]);
            assert events[k + 1] == events[1..][k];
          }
        }
        rest
  }

  /**
   * The first decisive event alone decides the value: its own resolution,
   * or none when it throws.
   */
  lemma {:induction false} FirstDecisiveDecides(events: seq<Event>, k: nat)
    requires k < |events| && Decisive(events[k])
    requires forall j :: 0 <= j < k ==> !Decisive(events[j])
    ensures FirstResolution(events)
            == if EventStep(events[k]).Resolve? then Some(EventStep(events[k]).value) else None
  {
    if k > 0 {
      assert !Decisive(events[0]);
      FirstDecisiveDecides(events[1..], k - 1);
    }
  }

  /** Without a decisive event the promise stays pending. */
  lemma {:induction false} NoDecisiveNoResolution(events: seq<Event>)
    requires !HasDecisive(events)
    ensures FirstResolution(events) == None
  {
    if events != [] {
      assert !Decisive(events[0]);
      assert !HasDecisive(events[1..]) by {
        forall k | 0 <= k < |events[1..]| ensures !Decisive(events[1..][k]) {
          assert events[1..][k] == events[k + 1];
        }
      }
      NoDecisiveNoResolution(events[1..]);
    }
  }

  /**
   * The promise resolves only with the empty string (a failed extrinsic)
   * or with the first data item of a `MarketCreated` event.
   */
  lemma {:induction false} ResolutionSource(events: seq<Event>)
    requires FirstResolution(events).Some?
    ensures FirstResolution(events).value == ""
            || exists k :: 0 <= k < |events| && events[k].name == MarketCreated
                           && |events[k].data| > 0 && events[k].data[0] == FirstResolution(events).value
  {
    if EventStep(events[0]).Continue? {
      ResolutionSource(events[1..]);
      if FirstResolution(events).value != "" {
        var k :| 0 <= k < |events[1..]| && events[1..][k].name == MarketCreated
                 && |events[1..][k].data| > 0 && events[1..][k].data[0] == FirstResolution(events).value;
        assert events[k + 1] == events[1..][k];
      }
    }
  }

  /** Once a decisive event has been seen, later events change nothing. */
  lemma {:induction false} DecidedPrefix(a: seq<Event>, b: seq<Event>)
    ensures HasDecisive(a) ==> FirstResolution(a + b) == FirstResolution(a)
    ensures !HasDecisive(a) ==> FirstResolution(a + b) == FirstResolution(b)
  {
    if a == [] {
      assert a + b == b;
    } else {
      assert (a + b)[0] == a[0];
      assert (a + b)[1..] == a[1..] + b;
      DecidedPrefix(a[1..], b);
      if !Decisive(a[0]) {
        assert HasDecisive(a) ==> HasDecisive(a[1..]) by {
          if HasDecisive(a) {
            var k :| 0 <= k < |a| && Decisive(a[k]);
            assert k > 0 && a[1..][k - 1] == a[k];
          }
        }
        assert HasDecisive(a[1..]) ==> HasDecisive(a) by {
          if HasDecisive(a[1..]) {
            var k :| 0 <= k < |a[1..]| && Decisive(a[1..][k]);
            assert a[k + 1] == a[1..][k];
          }
        }
      }
    }
  }

  /**
   * `_callback` on one status update: outside `InBlock` it does nothing;
   * in a block it walks the events in order, resolving the promise on
   * `MarketCreated` and `ExtrinsicFailed`, where only the first resolution
   * takes effect, and stops when reading a missing `data[0]` throws.
   */
  method HandleStatus(result: SubmittableResult) returns (settled: Option<string>)
    ensures settled == if result.status.InBlock? then FirstResolution(result.events) else None
  {
    settled := None;
    if !result.status.InBlock? {
      return;
    }
    var events := result.events;
    var i := 0;
    var threw := false;
    while i < |events| && !threw
      invariant 0 <= i <= |events|
      invariant settled == FirstResolution(events[..i])
      invariant threw ==> HasDecisive(events[..i])
      invariant HasDecisive(events[..i]) ==> settled.Some? || threw
    {
      var e := events[i];
      DecidedPrefix(events[..i], [e]);
      assert events[..i + 1] == events[..i] + [e];
      assert [e][1..] == [];
      assert FirstResolution([e]) == if EventStep(e).Resolve? then Some(EventStep(e).value) else None;
      if !HasDecisive(events[..i]) {
        NoDecisiveNoResolution(events[..i]);
      }
      if e.name == MarketCreated {
        if |e.data| == 0 {
          threw := true;
        } else if settled.None? {
          settled := Some(e.data[0]);
        }
      } else if e.name == ExtrinsicFailed {
        if settled.None? {
          settled := Some("");
        }
      }
      assert Decisive(e) ==> HasDecisive(events[..i + 1]) by {
        assert events[..i + 1][i] == e;
      }
      i := i + 1;
    }
    assert events == events[..i] + events[i..];
    DecidedPrefix(events[..i], events[i..]);
    if !threw {
      assert events[..i] == events;
    }
    assert settled == FirstResolution(events);
  }

  /** An update whose callback run settles the promise. */
  predicate Settles(u: SubmittableResult)
  {
    u.status.InBlock? && FirstResolution(u.events).Some?
  }

  /**
   * The value `createNewMarket` resolves with over a stream of status
   * updates: never when the caller passed its own callback (the default
   * one is then not installed), otherwise that of the first update whose
   * callback settles the promise. `updates` are the updates delivered to
   * the default callback, in order.
   */
  function CreationResult(hasCallback: bool, updates: seq<SubmittableResult>): (r: Option<string>)
    ensures hasCallback ==> r == None
    ensures !hasCallback && (exists i :: 0 <= i < |updates| && Settles(updates[i])) ==> r.Some?
    ensures r.Some? ==>
              exists i :: (0 <= i < |updates| && Settles(updates[i])
                           && FirstResolution(updates[i].events) == r
                           && forall j :: 0 <= j < i ==> !Settles(updates[j]))
  {
    if hasCallback || updates == [] then None
    else if Settles(updates[0]) then FirstResolution(updates[0].events)
    else
      var rest := CreationResult(hasCallback, updates[1..]);
      assert forall i :: 1 <= i < |updates| ==> updates[i] == updates[1..][i - 1];
      assert rest.Some? ==>
               exists i :: (0 <= i < |updates| && Settles(updates[i])
                            && FirstResolution(updates[i].events) == rest
                            && forall j :: 0 <= j < i ==> !Settles(updates[j])) by {
        if rest.Some? {
          var i :| 0 <= i < |updates[1..]| && Settles(updates[1..][i])
                   && FirstResolution(updates[1..][i].events) == rest
                   && forall j :: 0 <= j < i ==> !Settles(updates[1..][j]);
          assert updates[i + 1] == updates[1..][i];
          assert forall j :: 0 <= j < i + 1 ==> !Settles(updates[j]);
        }
      }
      rest
  }
}
