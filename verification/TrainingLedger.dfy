/** The hash-chained event ledger of scripts/llm_training_hooks.py: event types, the replay
    check of `_verify_event_chain`, and tamper evidence.

    The digest is any function from event bodies to strings.  Floating-point numbers enter
    events as integers (their 64-bit patterns), as the canonical JSON determines them. */
module TrainingLedger {
  import opened Results

  type Digest = string

  datatype Phase = Forward | Backward

  /** An aggregate: tensors, elements, non-finite and zero elements, and its magnitudes - the bit
      patterns of `max_abs`, `sum_squares`, `rms`, `finite_fraction` and `l2_norm`, None for null. */
  datatype Stats = Stats(count: nat, elements: nat, nonfinite: nat, zero: nat, magnitudes: seq<Option<int>>)

  /** Trainable parameter tensors and elements, and how many of them had a gradient. */
  datatype GradientCoverage = GradientCoverage(
    expectedTensors: nat, observedTensors: nat, expectedElements: nat, observedElements: nat)

  predicate IsCompleteGradient(g: GradientCoverage) {
    g.expectedTensors == g.observedTensors && g.expectedElements == g.observedElements
  }

  datatype Payload =
    | HookEvent(phase: Phase, step: nat, moduleName: string, stats: Stats)
    | StepEvent(
        step: nat, loss: Option<int>, gradients: Stats, coverage: GradientCoverage, tokens: nat,
        details: seq<Option<int>>, manifest: Option<string>)

  datatype EventBody = EventBody(sequence: nat, previous: Digest, payload: Payload)

  datatype Event = Event(body: EventBody, digest: Digest)

  // ---- The chain -------------------------------------------------------------------

  function HeadOf(genesis: Digest, events: seq<Event>): Digest {
    if events == [] then genesis else events[|events| - 1].digest
  }

  /** Event i carries sequence number i, names its predecessor's digest and is digested. */
  predicate LinkedAt(digest: EventBody -> Digest, genesis: Digest, events: seq<Event>, i: nat)
    requires i < |events|
  {
    && events[i].body.sequence == i
    && events[i].body.previous == HeadOf(genesis, events[..i])
    && events[i].digest == digest(events[i].body)
  }

  ghost predicate WellChained(digest: EventBody -> Digest, genesis: Digest, events: seq<Event>) {
    forall i: nat :: i < |events| ==> LinkedAt(digest, genesis, events, i)
  }

  datatype ChainCheck =
    | Intact
    | SequenceMismatch(at: nat)
    | PredecessorMismatch(at: nat)
    | DigestMismatch(at: nat)
    | HeadMismatch

  /** `_verify_event_chain`: replays the chain and names the first broken link. */
  method VerifyEventChain(digest: EventBody -> Digest, genesis: Digest, events: seq<Event>, head: Digest)
    returns (check: ChainCheck)
    ensures check.Intact? <==> WellChained(digest, genesis, events) && head == HeadOf(genesis, events)
    ensures check.SequenceMismatch? || check.PredecessorMismatch? || check.DigestMismatch? ==>
      && check.at < |events| && !LinkedAt(digest, genesis, events, check.at)
      && WellChained(digest, genesis, events[..check.at])
    ensures check.HeadMismatch? ==> WellChained(digest, genesis, events)
  {
    var previous := genesis;
    for sequence := 0 to |events|
      invariant previous == HeadOf(genesis, events[..sequence])
      invariant forall i: nat :: i < sequence ==> LinkedAt(digest, genesis, events, i)
    {
      var stored := events[sequence];
      assert WellChained(digest, genesis, events[..sequence]) by {
        LinksOfPrefix(digest, genesis, events, sequence);
      }
      if stored.body.sequence != sequence {
        assert !LinkedAt(digest, genesis, events, sequence);
        return SequenceMismatch(sequence);
      }
      if stored.body.previous != previous {
        assert !LinkedAt(digest, genesis, events, sequence);
        return PredecessorMismatch(sequence);
      }
      var replayed := digest(stored.body);
      if stored.digest != replayed {
        assert !LinkedAt(digest, genesis, events, sequence);
        return DigestMismatch(sequence);
      }
      previous := replayed;
      assert events[..sequence + 1][sequence] == stored;
    }
    assert events[..|events|] == events;
    return if previous != head then HeadMismatch else Intact;
  }

  lemma LinksOfPrefix(digest: EventBody -> Digest, genesis: Digest, events: seq<Event>, n: nat)
    requires n <= |events|
    requires forall i: nat :: i < n ==> LinkedAt(digest, genesis, events, i)
    ensures WellChained(digest, genesis, events[..n])
  {
    forall i: nat | i < n
      ensures LinkedAt(digest, genesis, events[..n], i)
    {
      assert LinkedAt(digest, genesis, events, i);
      assert events[..n][..i] == events[..i];
    }
  }

  /** The event `_append_event` builds for a payload. */
  function Sealed(digest: EventBody -> Digest, head: Digest, sequence: nat, payload: Payload): Event {
    var body := EventBody(sequence, head, payload);
    Event(body, digest(body))
  }

  /** Appending a sealed event keeps the chain. */
  lemma AppendKeepsChain(digest: EventBody -> Digest, genesis: Digest, events: seq<Event>, payload: Payload)
    requires WellChained(digest, genesis, events)
    ensures WellChained(digest, genesis, events + [Sealed(digest, HeadOf(genesis, events), |events|, payload)])
  {
    var grown := events + [Sealed(digest, HeadOf(genesis, events), |events|, payload)];
    forall i: nat | i < |grown|
      ensures LinkedAt(digest, genesis, grown, i)
    {
      if i < |events| {
        assert LinkedAt(digest, genesis, events, i);
        assert grown[..i] == events[..i];
      } else {
        assert grown[..i] == events;
      }
    }
  }

  // ---- Tamper evidence -------------------------------------------------------------

  ghost predicate Injective(digest: EventBody -> Digest) {
    forall a, b :: digest(a) == digest(b) ==> a == b
  }

  /** Two ledgers that replay from one genesis to one head are equal event by event, as
      soon as they agree on being empty. */
  lemma {:induction false} OneHeadOneLedger(digest: EventBody -> Digest, genesis: Digest, a: seq<Event>, b: seq<Event>)
    requires Injective(digest)
    requires WellChained(digest, genesis, a) && WellChained(digest, genesis, b)
    requires HeadOf(genesis, a) == HeadOf(genesis, b)
    requires a == [] <==> b == []
    ensures a == b
    decreases |a|
  {
    if a != [] {
      var i, j := |a| - 1, |b| - 1;
      assert LinkedAt(digest, genesis, a, i) && LinkedAt(digest, genesis, b, j);
      assert digest(a[i].body) == digest(b[j].body);
      assert a[i] == b[j] && i == j;
      LinksOfPrefix(digest, genesis, a, i);
      LinksOfPrefix(digest, genesis, b, j);
      OneHeadOneLedger(digest, genesis, a[..i], b[..j]);
      assert a == a[..i] + [a[i]] && b == b[..j] + [b[j]];
    }
  }

  /** The proviso is needed only against a genesis that is itself an event digest: for
      any other genesis, one head means one ledger. */
  lemma FreshGenesisOneLedger(digest: EventBody -> Digest, genesis: Digest, a: seq<Event>, b: seq<Event>)
    requires Injective(digest) && forall body :: digest(body) != genesis
    requires WellChained(digest, genesis, a) && WellChained(digest, genesis, b)
    ensures HeadOf(genesis, a) == HeadOf(genesis, b) <==> a == b
  {
    if HeadOf(genesis, a) == HeadOf(genesis, b) {
      if a != [] {
        assert LinkedAt(digest, genesis, a, |a| - 1);
      }
      if b != [] {
        assert LinkedAt(digest, genesis, b, |b| - 1);
      }
      OneHeadOneLedger(digest, genesis, a, b);
    }
  }
}
