/** Preparing a response with at most one replay of a changed source
    (bins/kronika-web/src/streaming.rs). */
module ResponseReplay {
  import opened Machine
  import opened ResponseBody
  import opened BodyProducing

  const NOT_MODIFIED: nat := 304

  /** What one call of `prepare` leads to: a refusal, or pieces followed by success or an error.
      `stopped` is how the stream ends when the sink refuses a piece. */
  datatype Attempt =
    | Refused(error: Error)
    | Prepared(meta: Meta, pieces: seq<Octets>, failure: Option<Error>, stopped: Option<Error>)

  /** The source changed before anything had to leave the staging area. */
  predicate Replays(a: Attempt) {
    match a
    case Refused(error) => error.sourceChanged
    case Prepared(meta, pieces, failure, _) =>
      && meta.status != NOT_MODIFIED && |Flatten(pieces)| <= STAGED_PREFIX_BYTES
      && failure.Some? && failure.value.sourceChanged
  }

  function Told(head: HeadSender, m: HeadMessage): Option<HeadMessage> {
    if head.alive then Some(m) else None
  }

  /** Some beginning of what this coding produces for these pieces, in bounded chunks, under a head
      that announces this coding. */
  ghost predicate Partial<S>(coding: ContentCoding, c: Coder<S>, meta: Meta, pieces: seq<Octets>, head: HeadSender,
                             body: Body)
    reads head, body
  {
    && Delivered(body.items) <= Coded(coding, c, Writes(pieces))
    && (head.message.Some? && head.message.value.Head? ==> head.message.value == Head(meta, Some(coding)))
  }

  /** Everything, announced and delivered; the client decodes exactly the emitted bytes. */
  ghost predicate Whole<S>(coding: ContentCoding, c: Coder<S>, meta: Meta, pieces: seq<Octets>, head: HeadSender,
                           body: Body)
    reads head, body
  {
    && Chunks(body.items) && head.message == Some(Head(meta, Some(coding)))
    && Delivered(body.items) == Coded(coding, c, Writes(pieces))
    && (Faithful(c) ==> Received(coding, c, Delivered(body.items)) == Some(Flatten(pieces)))
  }

  /** The head and the delivered items once the attempt that was not replayed is over. */
  ghost predicate Outcome<S>(a: Attempt, accepted: AcceptedEncodings, c: Coder<S>, head: HeadSender, body: Body)
    reads head, body
  {
    match a
    case Refused(error) => body.items == [] && head.message == Told(head, Failure(error))
    case Prepared(meta, pieces, failure, _) =>
      var coding := accepted.ForLength(|Flatten(pieces)|);
      if meta.status == NOT_MODIFIED then
        body.items == [] && head.message == Told(head, Head(meta, None))
      else if failure.Some? && |Flatten(pieces)| <= STAGED_PREFIX_BYTES then
        body.items == [] && head.message == Told(head, Failure(failure.value))
      else
        && Partial(coding, c, meta, pieces, head, body)
        && (body.patient && head.alive ==>
              if failure.None? then Whole(coding, c, meta, pieces, head, body)
              else
                && body.items != [] && body.items[|body.items| - 1] == Aborted
                && Chunks(body.items[..|body.items| - 1])
                && head.message == Some(Head(meta, Some(coding))))
  }

  lemma {:induction false} ProducedPrefix<S>(coding: ContentCoding, c: Coder<S>, some: seq<Octets>, all: seq<Octets>)
    requires some <= all && |Flatten(some)| > STAGED_PREFIX_BYTES
    ensures Produced(coding, c, Writes(some)) <= Produced(coding, c, Writes(all))
    ensures |Flatten(all)| > STAGED_PREFIX_BYTES
  {
    if |some| == |all| {
      assert some == all;
    } else {
      var init, last := all[..|all| - 1], all[|all| - 1];
      assert all == init + [last];
      ProducedPrefix(coding, c, some, init);
      WritesGrow(init, last);
      ProducedSnoc(coding, c, Writes(init), last);
    }
  }

  /** Feeds the producer until a piece is refused. */
  method StreamInto<S>(producer: BodyProducer<S>, pieces: seq<Octets>) returns (ok: bool)
    requires producer.Valid() && producer.emits == []
    modifies producer, producer.body, producer.slot, producer.Writer()
    ensures producer.Valid() && fresh(producer.Writer() - old(producer.Writer()))
    ensures producer.emits <= pieces && (ok ==> producer.emits == pieces)
    ensures !ok ==> producer.state.Stopped?
    ensures producer.body.patient && producer.slot.alive ==> ok
  {
    hide BodyProducer.Valid;
    for i := 0 to |pieces|
      invariant producer.Valid() && fresh(producer.Writer() - old(producer.Writer()))
      invariant producer.emits == pieces[..i]
    {
      assert pieces[..i + 1] == pieces[..i] + [pieces[i]];
      ok := producer.Emit(pieces[i]);
      if !ok {
        return;
      }
    }
    assert pieces[..|pieces|] == pieces;
    ok := true;
  }

  /** Whichever attempt is last decides the whole response: nothing of a replayed one was sent. */
  method PrepareResponse<S>(prepare: nat -> Attempt, accepted: AcceptedEncodings, coder: Coder<S>,
                            head: HeadSender, body: Body)
    returns (calls: nat)
    requires Compact(coder) && !head.used && head.message == None
    requires body.Valid() && body.items == [] && !body.read
    modifies head, body
    ensures calls == if Replays(prepare(0)) then 2 else 1
    ensures Outcome(prepare(calls - 1), accepted, coder, head, body)
  {
    var replayed := false;
    calls := 0;
    while true
      invariant !head.used && head.message == None && body.Valid() && body.items == [] && !body.read
      invariant calls == if replayed then 1 else 0
      invariant replayed ==> Replays(prepare(0))
      decreases !replayed
    {
      var attempt := prepare(calls);
      calls := calls + 1;
      match attempt {
        case Refused(error) =>
          if !replayed && error.sourceChanged {
            replayed := true;
          } else {
            var _ := head.Send(Failure(error));
            return;
          }
        case Prepared(meta, pieces, failure, stopped) =>
          if meta.status == NOT_MODIFIED {
            var _ := head.Send(Head(meta, None));
            return;
          }
          var again := RunAttempt(attempt, accepted, coder, head, body, replayed);
          if !again {
            return;
          }
          replayed := true;
      }
    }
  }

  /** One attempt over a prepared source; true when its staged head was taken back for another. */
  method RunAttempt<S>(attempt: Attempt, accepted: AcceptedEncodings, coder: Coder<S>, head: HeadSender, body: Body,
                       replayed: bool)
    returns (again: bool)
    requires attempt.Prepared? && attempt.meta.status != NOT_MODIFIED
    requires Compact(coder) && !head.used && head.message == None
    requires body.Valid() && body.items == [] && !body.read
    modifies head, body
    ensures again <==> !replayed && Replays(attempt)
    ensures again ==> !head.used && head.message == None && body.Valid() && body.items == [] && !body.read
    ensures !again ==> Outcome(attempt, accepted, coder, head, body)
  {
    var pieces := attempt.pieces;
    var producer := new BodyProducer(accepted, coder, attempt.meta, head, body);
    var ok := StreamInto(producer, pieces);
    var result := if ok then attempt.failure else attempt.stopped;
    if !ok { SentIsAPart(producer, pieces); }
    match result {
      case None =>
        CompleteAttempt(producer, attempt, ok);
        return false;
      case Some(error) =>
        if !replayed && error.sourceChanged {
          var pending := producer.TakeStagedHead();
          if pending.Some? {
            return true;
          }
        }
        FailAttempt(producer, attempt, ok, error);
        return false;
    }
  }

  /** The producer was fed the attempt's pieces, all of them unless the receiver went away. */
  ghost predicate Fed<S>(producer: BodyProducer<S>, attempt: Attempt, ok: bool)
    reads producer, producer.body, producer.slot, producer.Writer()
  {
    && attempt.Prepared? && attempt.meta.status != NOT_MODIFIED && producer.Valid()
    && producer.firstMeta == attempt.meta && producer.emits <= attempt.pieces
    && (ok ==> producer.emits == attempt.pieces)
    && (!ok ==> producer.state.Stopped?)
    && (producer.body.patient && producer.slot.alive ==> ok)
  }

  method CompleteAttempt<S>(producer: BodyProducer<S>, attempt: Attempt, ok: bool)
    requires Fed(producer, attempt, ok) && (ok ==> attempt.failure == None)
    modifies producer, producer.body, producer.slot, producer.Writer()
    ensures Outcome(attempt, producer.accepted, producer.coder, producer.slot, producer.body)
  {
    hide Flatten, Staged, Writes, Delivered, Produced, Coded, Chunks;
    hide After, Output, Encoded, Compact, Received, Faithful;
    var pieces, accepted, coder := attempt.pieces, producer.accepted, producer.coder;
    CompleteDeliveryDecodesIfFaithful(accepted.ForLength(|Flatten(pieces)|), coder, pieces);
    if !ok { SentIsAPart(producer, pieces); }
    producer.Complete();
  }

  method FailAttempt<S>(producer: BodyProducer<S>, attempt: Attempt, ok: bool, error: Error)
    requires Fed(producer, attempt, ok) && (ok ==> attempt.failure == Some(error))
    modifies producer, producer.body, producer.slot, producer.Writer()
    ensures Outcome(attempt, producer.accepted, producer.coder, producer.slot, producer.body)
  {
    hide Flatten, Staged, Writes, Delivered, Produced, Coded, Chunks;
    hide After, Output, Encoded, Compact, Received, Faithful;
    ghost var pieces := attempt.pieces;
    if |Flatten(producer.emits)| > STAGED_PREFIX_BYTES { SentIsAPart(producer, pieces); }
    StartedIsClean(producer);
    producer.Fail(error);
  }

  lemma {:induction false} SentIsAPart<S>(producer: BodyProducer<S>, pieces: seq<Octets>)
    requires producer.Valid() && producer.emits <= pieces
    requires |Flatten(producer.emits)| > STAGED_PREFIX_BYTES
    ensures var coding := producer.accepted.ForLarge();
            Produced(coding, producer.coder, Writes(producer.emits)) <= Coded(coding, producer.coder, Writes(pieces))
    ensures |Flatten(pieces)| > STAGED_PREFIX_BYTES
  {
    var coding := producer.accepted.ForLarge();
    ProducedPrefix(coding, producer.coder, producer.emits, pieces);
    assert Produced(coding, producer.coder, Writes(pieces)) <= Coded(coding, producer.coder, Writes(pieces));
  }

  lemma {:induction false} StartedIsClean<S>(producer: BodyProducer<S>)
    requires producer.Valid()
    ensures Chunks(producer.body.items)
  {
  }

  lemma {:induction false} CompleteDeliveryDecodesIfFaithful<S>(coding: ContentCoding, c: Coder<S>,
                                        pieces: seq<Octets>)
    ensures Faithful(c) ==> Received(coding, c, Coded(coding, c, Writes(pieces))) == Some(Flatten(pieces))
  {
    if Faithful(c) { CompleteDeliveryDecodes(coding, c, pieces); }
  }
}
