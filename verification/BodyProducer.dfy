/** The producer behind one response body: it stages a prefix, commits the head once, then streams
    (bins/kronika-web/src/body.rs). */
module BodyProducing {
  import opened Machine
  import opened ResponseBody

  datatype Meta = Meta(status: nat, tag: int)

  datatype Error = Error(sourceChanged: bool, code: int)

  datatype HeadMessage = Head(meta: Meta, coding: Option<ContentCoding>) | Failure(error: Error)

  /** A one-shot sender: the precondition of `Send` is that it was never used before. */
  class HeadSender {
    const alive: bool
    var used: bool
    var message: Option<HeadMessage>

    constructor (alive: bool)
      ensures this.alive == alive && !used && message == None
    {
      this.alive, used, message := alive, false, None;
    }

    method Send(m: HeadMessage) returns (ok: bool)
      requires !used
      modifies this
      ensures used && ok == alive
      ensures message == if alive then Some(m) else old(message)
    {
      used := true;
      if alive { message := Some(m); }
      ok := alive;
    }
  }

  datatype ProducerState<S> = Staging(prefix: Octets) | Plain | Compressing(encoder: S, writer: ChunkWriter) | Stopped

  class BodyProducer<S> {
    const accepted: AcceptedEncodings
    const coder: Coder<S>
    const body: Body
    var meta: Option<Meta>
    var head: Option<HeadSender>
    var state: ProducerState<S>
    ghost const slot: HeadSender
    ghost const firstMeta: Meta
    ghost var emits: seq<Octets>

    ghost function Writer(): set<object>
      reads this
    {
      if state.Compressing? then {state.writer} else {}
    }

    /** Nothing left this attempt yet. */
    ghost predicate Untouched()
      reads this, body, slot
    {
      && head == Some(slot) && meta == Some(firstMeta)
      && !slot.used && slot.message == None
      && body.Valid() && body.items == [] && !body.read
    }

    ghost predicate Started(coding: ContentCoding)
      reads this, body, slot
    {
      && head == None && meta == None
      && slot.used && slot.message == Some(Head(firstMeta, Some(coding)))
      && body.Valid() && body.read && Chunks(body.items)
    }

    /** A head that was delivered announces this coding. */
    ghost predicate HeadFits(coding: ContentCoding)
      reads slot
    {
      slot.message.Some? && slot.message.value.Head? ==> slot.message.value == Head(firstMeta, Some(coding))
    }

    /** The response has begun and `pieces` were written to its coding. */
    ghost predicate Streaming(pieces: seq<Octets>)
      reads this, body, slot, Writer()
    {
      match state
      case Plain =>
        Started(Identity) && Delivered(body.items) == Produced(Identity, coder, pieces)
      case Compressing(encoder, writer) =>
        && Started(Gzip) && writer.body == body && writer.Valid() && !writer.aborted
        && encoder == After(coder, pieces)
        && Delivered(body.items) + writer.bytes == Produced(Gzip, coder, pieces)
      case _ => false
    }

    /** The receiver is gone; what it got is a beginning of what was produced. */
    ghost predicate Abandoned(pieces: seq<Octets>)
      reads this, body, slot
    {
      && state == Stopped && !(body.patient && slot.alive) && body.Valid() && Chunks(body.items)
      && HeadFits(accepted.ForLarge())
      && Delivered(body.items) <= Produced(accepted.ForLarge(), coder, pieces)
    }

    ghost predicate Matches(coding: ContentCoding)
      reads this
    {
      state == (if coding == Identity then Plain else state) && (coding == Gzip ==> state.Compressing?)
    }

    ghost predicate Valid()
      reads this, body, slot, Writer()
    {
      && Compact(coder)
      && match state
         case Staging(prefix) =>
           Untouched() && prefix == Flatten(emits) && |prefix| <= STAGED_PREFIX_BYTES
         case Stopped => |Flatten(emits)| > STAGED_PREFIX_BYTES && Abandoned(Writes(emits))
         case _ => && |Flatten(emits)| > STAGED_PREFIX_BYTES
                   && Matches(accepted.ForLarge()) && Streaming(Writes(emits))
    }

    constructor (accepted: AcceptedEncodings, coder: Coder<S>, meta: Meta, head: HeadSender, body: Body)
      requires Compact(coder) && !head.used && head.message == None
      requires body.Valid() && body.items == [] && !body.read
      ensures Valid() && state == Staging([]) && emits == []
      ensures this.accepted == accepted && this.coder == coder && this.body == body
      ensures slot == head && firstMeta == meta
    {
      this.accepted, this.coder, this.body := accepted, coder, body;
      this.meta, this.head, state := Some(meta), Some(head), Staging([]);
      slot, firstMeta, emits := head, meta, [];
    }

    method SendHead(coding: ContentCoding) returns (ok: bool)
      requires head == Some(slot) && meta == Some(firstMeta) && !slot.used && slot.message == None
      requires body.Valid()
      modifies this`head, this`meta, slot, body`read
      ensures head == None && meta == None && slot.used && ok == slot.alive
      ensures slot.message == if ok then Some(Head(firstMeta, Some(coding))) else None
      ensures body.read == (ok || old(body.read))
    {
      var m, h := meta.value, head.value;
      meta, head := None, None;
      ok := h.Send(Head(m, Some(coding)));
      if ok { body.read := true; }
    }

    method Reject(error: Error)
      requires head.Some? ==> head == Some(slot) && !slot.used
      modifies this`head, this`meta, slot
      ensures meta == None && head == None
      ensures old(head).None? ==> slot.message == old(slot.message)
      ensures old(head).Some? ==> slot.message == if slot.alive then Some(Failure(error)) else old(slot.message)
    {
      meta := None;
      if head.Some? {
        var h := head.value;
        head := None;
        var _ := h.Send(Failure(error));
      }
    }

    method FailStarted()
      requires body.Valid() && body.read
      modifies body
      ensures body.Valid() && body.read
      ensures body.items == old(body.items) || body.items == old(body.items) + [Aborted]
      ensures body.patient ==> body.items == old(body.items) + [Aborted]
    {
      var _ := body.BlockingSend(Aborted);
    }

    /** Sends the staged prefix, then commits the head. */
    method StartStream(prefix: Octets, coding: ContentCoding) returns (ok: bool)
      requires Compact(coder) && Untouched() && state == Stopped && |prefix| <= STAGED_PREFIX_BYTES
      requires coding == accepted.ForLarge()
      modifies this, body, slot
      ensures emits == old(emits) && fresh(Writer())
      ensures body.patient && slot.alive ==> ok
      ensures if ok then Matches(coding) && Streaming([prefix]) else Abandoned([prefix])
    {
      OneWrite(coder, prefix);
      var next: ProducerState<S>;
      match coding {
        case Identity =>
          ok := SendIdentity(body, prefix);
          if !ok {
            return false;
          }
          next := Plain;
        case Gzip =>
          var writer := new ChunkWriter(body);
          var (encoder, output) := coder.step(coder.start, prefix);
          assert |output| <= |Encoded(coder, [prefix])|;
          ok := writer.Write(output);
          if !ok {
            Reject(Error(false, 0));
            return false;
          }
          next := Compressing(encoder, writer);
      }
      ok := SendHead(coding);
      if !ok {
        return false;
      }
      state := next;
    }

    method WriteStream(bytes: Octets, ghost pieces: seq<Octets>) returns (ok: bool)
      requires Matches(accepted.ForLarge()) && Streaming(pieces)
      modifies this`state, body, Writer()
      ensures Writer() <= old(Writer())
      ensures body.patient ==> ok
      ensures if ok then Matches(accepted.ForLarge()) && Streaming(pieces + [bytes]) else Abandoned(pieces + [bytes])
    {
      var current := state;
      state := Stopped;
      ProducedSnoc(accepted.ForLarge(), coder, pieces, bytes);
      match current {
        case Plain =>
          ok := SendIdentity(body, bytes);
          if ok { state := Plain; }
        case Compressing(encoder, writer) =>
          OutputSnoc(coder, pieces, bytes);
          var (next, output) := coder.step(encoder, bytes);
          ok := writer.Write(output);
          if ok { state := Compressing(next, writer); }
      }
    }

    method Emit(bytes: Octets) returns (ok: bool)
      requires Valid()
      modifies this, body, slot, Writer()
      ensures Valid() && emits == old(emits) + [bytes]
      ensures fresh(Writer() - old(Writer()))
      ensures body.patient && slot.alive ==> ok
      ensures ok <==> !state.Stopped?
    {
      hide Flatten, Staged, Writes, Delivered, Produced, Chunks, After, Output, Encoded, Compact;
      var current := state;
      ghost var before := emits;
      FlattenSnoc(before, bytes);
      emits := before + [bytes];
      match current {
        case Staging(prefix) =>
          state := Stopped;
          var remaining := STAGED_PREFIX_BYTES - |prefix|;
          if |bytes| <= remaining {
            state := Staging(prefix + bytes);
            return true;
          }
          WritesOverflow(before, bytes);
          var first, rest := prefix + bytes[..remaining], bytes[remaining..];
          ok := StartStream(first, accepted.ForLarge());
          if !ok {
            ProducedSnoc(accepted.ForLarge(), coder, [first], rest);
            return false;
          }
          ok := WriteStream(rest, [first]);
        case Stopped =>
          WritesGrow(before, bytes);
          ProducedSnoc(accepted.ForLarge(), coder, Writes(before), bytes);
          ok := false;
        case _ =>
          WritesGrow(before, bytes);
          ok := WriteStream(bytes, Writes(before));
      }
    }

    /** The head can be recovered for another attempt exactly while everything is still staged. */
    method TakeStagedHead() returns (pending: Option<HeadSender>)
      requires Valid()
      modifies this`head
      ensures pending == if old(state).Staging? then Some(slot) else None
      ensures pending.Some? ==> !slot.used && slot.message == None && body.Valid() && body.items == [] && !body.read
      ensures pending.Some? ==> |Flatten(emits)| <= STAGED_PREFIX_BYTES
      ensures pending.None? ==> Valid() && |Flatten(emits)| > STAGED_PREFIX_BYTES
    {
      if state.Staging? {
        pending := head;
        head := None;
      } else {
        pending := None;
      }
    }

    method FinishGzip(encoder: S, writer: ChunkWriter, ghost pieces: seq<Octets>) returns (ok: bool)
      requires writer.body == body && writer.Valid() && !writer.aborted && Chunks(body.items)
      requires writer.Room(|coder.finish(encoder)|) && encoder == After(coder, pieces)
      requires Delivered(body.items) + writer.bytes == Output(coder, pieces)
      modifies body, writer
      ensures body.Valid() && body.read == old(body.read) && Chunks(body.items)
      ensures (body.patient ==> ok) && (!ok ==> !body.open)
      ensures ok ==> Delivered(body.items) == Encoded(coder, pieces)
      ensures Delivered(body.items) <= Encoded(coder, pieces)
    {
      ok := writer.Write(coder.finish(encoder));
      if ok {
        ok := writer.Finish();
      }
    }

    /** What the client holds after this attempt ended well. */
    ghost predicate Completed(coding: ContentCoding)
      reads this, body, slot
    {
      && Chunks(body.items) && HeadFits(coding)
      && Delivered(body.items) <= Coded(coding, coder, Writes(emits))
      && (body.patient && slot.alive ==>
            && Delivered(body.items) == Coded(coding, coder, Writes(emits))
            && slot.message == Some(Head(firstMeta, Some(coding))))
    }

    method CompletePrefix(prefix: Octets, coding: ContentCoding)
      requires Compact(coder) && Untouched() && state == Stopped
      requires prefix == Flatten(emits) && |prefix| <= STAGED_PREFIX_BYTES
      modifies this, body, slot
      ensures Completed(coding) && emits == old(emits)
    {
      hide Flatten, Staged, Writes, Compact, Output, After;
      WritesFit(emits);
      OneWrite(coder, prefix);
      var ok: bool;
      match coding {
        case Identity => ok := SendIdentity(body, prefix);
        case Gzip =>
          var writer := new ChunkWriter(body);
          var (encoder, output) := coder.step(coder.start, prefix);
          RoomForPrefix(coder, prefix);
          ok := writer.Write(output);
          if ok {
            ok := FinishGzip(encoder, writer, [prefix]);
          }
      }
      if ok {
        var _ := SendHead(coding);
      } else {
        Reject(Error(false, 0));
      }
    }

    method Complete()
      requires Valid()
      modifies this, body, slot, Writer()
      ensures Completed(accepted.ForLength(|Flatten(emits)|)) && emits == old(emits)
      ensures old(state).Stopped? ==> body.items == old(body.items) && slot.message == old(slot.message)
    {
      var current := state;
      state := Stopped;
      match current {
        case Staging(prefix) => CompletePrefix(prefix, accepted.ForSmall());
        case Compressing(encoder, writer) =>
          var ok := FinishGzip(encoder, writer, Writes(emits));
          if !ok {
            // A write fails only once the receiver is gone, so there is nobody to abort.
            var closed := body.IsClosed();
            assert closed;
          }
        case _ =>
      }
    }

    /** Rejects before the head; aborts the body after it. */
    method Fail(error: Error)
      requires Valid()
      modifies this, body, slot, Writer()
      ensures emits == old(emits) && body.Valid()
      ensures |Flatten(emits)| <= STAGED_PREFIX_BYTES ==>
                body.items == [] && slot.message == if slot.alive then Some(Failure(error)) else None
      ensures |Flatten(emits)| > STAGED_PREFIX_BYTES ==>
                && HeadFits(accepted.ForLarge()) && slot.message == old(slot.message)
                && Delivered(body.items) <= Produced(accepted.ForLarge(), coder, Writes(emits))
                && (body.items == old(body.items) || body.items == old(body.items) + [Aborted])
      ensures |Flatten(emits)| > STAGED_PREFIX_BYTES && body.patient && slot.alive ==>
                && body.items == old(body.items) + [Aborted]
                && slot.message == Some(Head(firstMeta, Some(accepted.ForLarge())))
    {
      hide Flatten, Staged, Writes, Compact, Output, After, Delivered, Produced, Chunks;
      var current := state;
      state := Stopped;
      DeliveredSnoc(body.items, []);
      match current {
        case Staging(prefix) => Reject(error);
        case Compressing(encoder, writer) =>
          writer.Abort();
          var closed := body.IsClosed();
          if !closed { FailStarted(); }
        case Plain =>
          var closed := body.IsClosed();
          if !closed { FailStarted(); }
        case Stopped =>
      }
    }
  }

  /** Both the output and the trailer of a staged prefix fit the queue nobody reads yet. */
  lemma {:induction false} RoomForPrefix<S>(c: Coder<S>, prefix: Octets)
    requires Compact(c) && |prefix| <= STAGED_PREFIX_BYTES
    ensures var (encoder, output) := c.step(c.start, prefix);
            |output| + |c.finish(encoder)| <= BODY_CHUNK_BYTES * BODY_CHANNEL_CAPACITY
  {
    OneWrite(c, prefix);
    assert |Encoded(c, [prefix])| <= BODY_CHUNK_BYTES * BODY_CHANNEL_CAPACITY;
  }
}
