/**
  * The receiving side of the DTLS handshake as the source updates it: a ring buffer of message
  * objects, each with its own byte buffer and bitmask, and the replay window. Every method is proved
  * against the function of the same name in ReceiverSpec.
  */
module Receiver {
  import opened Bytes
  import opened HandshakeFragment
  import opened Reassembly
  import opened ReplayWindow
  import opened ReceiverSpec

  /** incoming_messages: the ring, which owns its messages. */
  class Ring {
    const incoming: array<HmFragment?>
    ghost var Repr: set<object>

    ghost predicate Valid()
      reads this, Repr
    {
      && this in Repr && incoming in Repr
      && incoming.Length == MAX_FLIGHT
      && (forall i | 0 <= i < MAX_FLIGHT && incoming[i] != null :: FragmentOk(incoming[i]))
      && (forall i, j | 0 <= i < j < MAX_FLIGHT && incoming[i] != null && incoming[j] != null ::
            incoming[i].Repr() !! incoming[j].Repr())
    }

    ghost predicate FragmentOk(f: HmFragment)
      reads this, Repr
    {
      && f in Repr && f.Repr() <= Repr
      && this !in f.Repr() && incoming !in f.Repr()
      && f.Valid()
    }

    ghost function Slot(i: nat): Option<Incoming>
      requires Valid() && i < MAX_FLIGHT
      reads this, Repr
    {
      if incoming[i] == null then None else Some(incoming[i].Value())
    }

    ghost function Slots(): seq<Option<Incoming>>
      requires Valid()
      reads this, Repr
    {
      seq(MAX_FLIGHT, i requires 0 <= i < MAX_FLIGHT && Valid() reads this, Repr => Slot(i))
    }

    constructor ()
      ensures Valid() && fresh(Repr) && Slots() == EMPTY_RING
    {
      incoming := new HmFragment?[MAX_FLIGHT](_ => null);
      new;
      Repr := {this, incoming};
    }

    method Insert(idx: nat, frag: HmFragment)
      requires Valid() && idx < MAX_FLIGHT && incoming[idx] == null
      requires frag.Valid() && frag.Repr() !! Repr
      modifies this, incoming
      ensures Valid() && Repr == old(Repr) + frag.Repr() && incoming[idx] == frag
      ensures Slots() == old(Slots())[idx := Some(frag.Value())]
    {
      incoming[idx] := frag;
      Repr := Repr + frag.Repr();
      forall j: nat | j < MAX_FLIGHT && j != idx ensures Slot(j) == old(Slot(j)) {
      }
    }

    method Remove(idx: nat)
      requires Valid() && idx < MAX_FLIGHT
      modifies incoming
      ensures Valid() && Slots() == old(Slots())[idx := None]
    {
      incoming[idx] := null;
      forall j: nat | j < MAX_FLIGHT && j != idx ensures Slot(j) == old(Slot(j)) {
      }
    }

    method ReceiveInto(idx: nat, off: nat, body: seq<byte>, ghost epoch: nat)
      requires Valid() && idx < MAX_FLIGHT && incoming[idx] != null && incoming[idx].reassembly != null
      requires off + |body| <= incoming[idx].msgLen
      modifies incoming[idx].Repr()
      ensures Valid() && Repr == old(Repr)
      ensures Slots() == old(Slots())[idx := Some(old(Slots())[idx].value.Put(off, body, epoch))]
    {
      ReceiveAt(idx, off, body, epoch);
    }

    method ReceiveAt(idx: nat, off: nat, body: seq<byte>, ghost epoch: nat)
      requires Valid() && idx < MAX_FLIGHT && incoming[idx] != null && incoming[idx].reassembly != null
      requires off + |body| <= incoming[idx].msgLen
      modifies incoming[idx].Repr()
      ensures FragmentOk(incoming[idx]) && incoming[idx].Repr() <= old(incoming[idx].Repr())
      ensures incoming[idx].Value() == old(incoming[idx].Value()).Put(off, body, epoch)
      ensures forall j: nat | j < MAX_FLIGHT && j != idx && incoming[j] != null ::
                && FragmentOk(incoming[j])
                && incoming[j].Repr() == old(incoming[j].Repr())
                && incoming[j].Value() == old(incoming[j].Value())
    {
      incoming[idx].Receive(off, body, epoch);
    }
  }

  /** The fields of SSL, SSL3_STATE and DTLS1_STATE that receiving a handshake uses. */
  class Connection {
    const ring: Ring
    const bitmap: ReplayBitmap
    var readSeq: nat
    var hasMessage: bool
    var hasCcs: bool
    var epoch: nat
    var nullCipher: bool
    ghost var keyChanges: nat

    ghost function Repr(): set<object>
      reads ring
    {
      {this, bitmap} + ring.Repr
    }

    ghost predicate Valid()
      reads this, ring, ring.Repr
    {
      && this !in ring.Repr && bitmap !in ring.Repr
      && ring.Valid()
      && readSeq < 0x1_0000
      && epoch == keyChanges % 0x1_0000
    }

    ghost function Value(): State
      requires Valid()
      reads this, ring, ring.Repr, bitmap
    {
      State(readSeq, ring.Slots(), hasMessage, hasCcs, keyChanges, nullCipher, bitmap.Value())
    }

    constructor ()
      ensures Valid() && fresh(Repr()) && Value() == INITIAL
    {
      ring := new Ring();
      bitmap := new ReplayBitmap();
      readSeq, hasMessage, hasCcs, epoch, keyChanges, nullCipher := 0, false, false, 0, 0, true;
    }

    /** dtls1_is_current_message_complete */
    method IsCurrentComplete() returns (complete: bool)
      requires Valid()
      ensures complete == Value().CurrentComplete()
      ensures complete <==> var f := ring.incoming[readSeq % MAX_FLIGHT]; f != null && f.reassembly == null
    {
      var frag := ring.incoming[readSeq % MAX_FLIGHT];
      assert Value().Current() == ring.Slot(readSeq % MAX_FLIGHT);
      if frag != null {
        frag.CompleteIffNoMask();
      }
      complete := frag != null && frag.reassembly == null;
    }

    /** dtls1_get_incoming_message */
    method GetIncomingMessage(hdr: Header) returns (frag: HmFragment?)
      requires Valid() && hdr.Fits()
      modifies ring, ring.Repr
      ensures Valid() && fresh(ring.Repr - old(ring.Repr))
      ensures frag == null <==> GetIncoming(old(Value()), hdr).None?
      ensures frag == null ==> Value() == old(Value())
      ensures frag != null ==> Value() == GetIncoming(old(Value()), hdr).value
      ensures frag != null ==> ring.incoming[hdr.seqNo % MAX_FLIGHT] == frag && frag.msgLen == hdr.msgLen
    {
      if hdr.seqNo < readSeq || hdr.seqNo - readSeq >= MAX_FLIGHT {
        return null;
      }
      var idx := hdr.seqNo % MAX_FLIGHT;
      frag := ring.incoming[idx];
      assert Value().slots[idx] == ring.Slot(idx);
      if frag != null {
        if frag.typ != hdr.typ || frag.msgLen != hdr.msgLen {
          return null;
        }
        return;
      }
      frag := new HmFragment(hdr);
      ring.Insert(idx, frag);
    }

    /** dtls_open_record: what to do with the record */
    method OpenRecord(rec: Record) returns (outcome: Outcome)
      requires Valid() && rec.WellFormed()
      modifies bitmap
      ensures Valid() && (Value(), outcome) == ReceiverSpec.OpenRecord(old(Value()), rec)
      ensures outcome == Success ==> rec.Record? && rec.plaintext.Some?
    {
      if rec.Garbled? || !rec.versionOk {
        return Discard;
      }
      if rec.Epoch() != epoch {
        return Discard;
      }
      var discard := bitmap.ShouldDiscard(rec.sequence);
      if discard {
        return Discard;
      }
      if rec.plaintext.None? {
        return Discard;
      }
      if |rec.plaintext.value| > MAX_PLAIN_LENGTH {
        return Error;
      }
      bitmap.Record(rec.sequence);
      outcome := if rec.typ == RT_ALERT then Alert else Success;
    }

    /** One turn of the fragment loop of dtls1_open_handshake */
    method AcceptFragment(hdr: Header, body: seq<byte>, maxLen: nat) returns (ok: bool)
      requires Valid() && hdr.Fits() && |body| == hdr.fragLen
      modifies ring, ring.Repr
      ensures Valid() && fresh(ring.Repr - old(ring.Repr))
      ensures (Value(), ok) == ReceiverSpec.AcceptFragment(old(Value()), hdr, body, maxLen)
    {
      if hdr.fragOff > hdr.msgLen || hdr.fragOff + hdr.fragLen > hdr.msgLen || hdr.msgLen > maxLen {
        return false;
      }
      if epoch == 1 && hdr.seqNo != readSeq {
        return false;
      }
      if hdr.seqNo < readSeq || hdr.seqNo > readSeq + MAX_FLIGHT {
        return true;
      }
      var frag := GetIncomingMessage(hdr);
      if frag == null {
        return false;
      }
      frag.CompleteIffNoMask();
      assert Value().slots[hdr.seqNo % MAX_FLIGHT] == Some(frag.Value());
      if frag.reassembly == null {
        return true;
      }
      ring.ReceiveInto(hdr.seqNo % MAX_FLIGHT, hdr.fragOff, body, keyChanges);
      ok := true;
    }

    /** The fragment loop of dtls1_open_handshake */
    method AcceptFragments(payload: seq<byte>, maxLen: nat) returns (ok: bool)
      requires Valid()
      modifies ring, ring.Repr
      ensures Valid() && fresh(ring.Repr - old(ring.Repr))
      ensures (Value(), ok) == ReceiverSpec.AcceptFragments(old(Value()), payload, maxLen)
    {
      var cbs := payload;
      ghost var goal := ReceiverSpec.AcceptFragments(Value(), payload, maxLen);
      while |cbs| > 0
        invariant Valid() && fresh(ring.Repr - old(ring.Repr))
        invariant goal == ReceiverSpec.AcceptFragments(Value(), cbs, maxLen)
      {
        match ParseFragment(cbs) {
          case Malformed =>
            return false;
          case Parsed(hdr, body, rest) =>
            ok := AcceptFragment(hdr, body, maxLen);
            if !ok {
              return;
            }
            cbs := rest;
        }
      }
      ok := true;
    }

    /** dtls1_open_handshake */
    method OpenHandshake(rec: Record, maxLen: nat) returns (outcome: Outcome)
      requires Valid() && rec.WellFormed()
      modifies Repr()
      ensures Valid() && fresh(Repr() - old(Repr()))
      ensures (Value(), outcome) == ReceiverSpec.OpenHandshake(old(Value()), rec, maxLen)
    {
      outcome := OpenRecord(rec);
      if outcome != Success {
        return;
      }
      if rec.typ == RT_APPLICATION_DATA {
        return if nullCipher then Error else Discard;
      } else if rec.typ == RT_CHANGE_CIPHER_SPEC {
        if !nullCipher || rec.plaintext.value != [MT_CCS] {
          return Error;
        }
        hasCcs := true;
        return Success;
      } else if rec.typ != RT_HANDSHAKE {
        return Error;
      }
      var ok := AcceptFragments(rec.plaintext.value, maxLen);
      outcome := if ok then Success else Error;
    }

    /** dtls1_open_change_cipher_spec */
    method OpenChangeCipherSpec(rec: Record, maxLen: nat) returns (outcome: Outcome)
      requires Valid() && rec.WellFormed()
      modifies Repr()
      ensures Valid() && fresh(Repr() - old(Repr()))
      ensures (Value(), outcome) == ReceiverSpec.OpenChangeCipherSpec(old(Value()), rec, maxLen)
    {
      if !hasCcs {
        outcome := OpenHandshake(rec, maxLen);
        if outcome != Success {
          return;
        }
      }
      if hasCcs {
        hasCcs := false;
        return Success;
      }
      outcome := Discard;
    }

    /** dtls1_get_message */
    method GetMessage() returns (msg: Option<Message>)
      requires Valid()
      modifies this`hasMessage
      ensures Valid() && (Value(), msg) == ReceiverSpec.GetMessage(old(Value()))
    {
      var complete := IsCurrentComplete();
      if !complete {
        return None;
      }
      var frag := ring.incoming[readSeq % MAX_FLIGHT];
      frag.BodyIsData();
      assert Value().Current() == ring.Slot(readSeq % MAX_FLIGHT);
      msg := Some(Message(frag.typ, frag.data[HM_HEADER_LENGTH..]));
      hasMessage := true;
    }

    /** dtls1_next_message */
    method NextMessage()
      requires Valid() && Value().Valid() && hasMessage
      modifies this, ring.incoming
      ensures Valid() && Value() == ReceiverSpec.NextMessage(old(Value()))
    {
      ring.Remove(readSeq % MAX_FLIGHT);
      readSeq := (readSeq + 1) % 0x1_0000;
      hasMessage := false;
    }

    /** dtls_has_unprocessed_handshake_data */
    method HasUnprocessedData() returns (unprocessed: bool)
      requires Valid()
      ensures unprocessed == HasUnprocessed(Value())
    {
      if hasCcs {
        return true;
      }
      var current := readSeq % MAX_FLIGHT;
      for i := 0 to MAX_FLIGHT
        invariant forall k | 0 <= k < i :: Value().slots[k].None? || (hasMessage && k == current)
      {
        assert Value().slots[i] == ring.Slot(i);
        if hasMessage && i == current {
          continue;
        }
        if ring.incoming[i] != null {
          return true;
        }
      }
      unprocessed := false;
    }

    /** dtls1_set_read_state */
    method SetReadState(isNullCipher: bool) returns (ok: bool)
      requires Valid()
      modifies this, bitmap
      ensures Valid() && (Value(), ok) == ReceiverSpec.SetReadState(old(Value()), isNullCipher)
    {
      var unprocessed := HasUnprocessedData();
      if unprocessed {
        return false;
      }
      epoch := (epoch + 1) % 0x1_0000;
      keyChanges := keyChanges + 1;
      bitmap.Reset();
      nullCipher := isNullCipher;
      ok := true;
    }
  }
}
