/**
 The DTLS protocol methods that act on several parts of the connection at once: taking a
 message, switching the read epoch and completing the handshake (d1_both.cc, dtls_method.cc).
 */
module Transport {
  import Reassembly
  import opened Receiver
  import opened RecordLayer
  import opened FlightSender
  import opened RetransmitTimer

  /** dtls1_next_message: a message that follows a complete flight is the reply to it. */
  method TakeMessage(ring: MessageRing, sender: Sender)
    requires ring.Valid() && ring.hasMessage && ring.View().CurrentComplete()
    requires sender !in ring.Repr
    modifies ring.Repr, sender`flightHasReply
    ensures ring.Valid() && ring.View() == old(ring.View()).Next() && !ring.hasMessage
    ensures sender.flightHasReply == (old(sender.flightHasReply) || sender.complete)
  {
    hide SlotsOk, RingOf, PartialOf, Reassembly.Ring.Valid, Reassembly.Ring.Next, Holds;
    ring.NextMessage();
    if sender.complete {
      sender.flightHasReply := true;
    }
  }

  /**
   dtls1_set_read_state: the keys change only when no message of the old epoch is left but
   the one being read, so nothing received before can pass for a message of the new epoch.
   */
  method SetReadState(ring: MessageRing, reader: RecordReader, nullCipher: bool, recordVersion: nat) returns (ok: bool)
    requires ring.Valid() && reader.Valid()
    requires reader !in ring.Repr && reader.bitmap !in ring.Repr
    modifies reader
    ensures ring.Valid() && reader.Valid() && ring.View() == old(ring.View())
    ensures ok <==> !ring.hasChangeCipherSpec && forall s | s in ring.View().slots :: ring.hasMessage && s == ring.readSeq
    ensures ok ==> reader.bitmap.accepted == {} && reader.state.epoch == (old(reader.state.epoch) + 1) % 0x10000
    ensures !ok ==> reader.state == old(reader.state) && reader.bitmap == old(reader.bitmap)
  {
    hide SlotsOk, RingOf, PartialOf, Reassembly.Ring.Valid, Holds;
    var leftover := ring.HasUnprocessedHandshakeData();
    if leftover {
      return false;
    }
    reader.SetReadState(nullCipher, recordVersion);
    return true;
  }

  /** dtls1_on_handshake_complete: the last flight is kept for retransmission unless the peer has answered it. */
  method OnHandshakeComplete(sender: Sender)
    requires sender.Valid()
    modifies sender.timer
    modifies sender`outgoing, sender`written, sender`offset, sender`complete, sender`flightHasReply, sender`sent
    ensures sender.Valid() && sender.timer.nextTimeout == NO_TIMEOUT && sender.timer.numTimeouts == 0
    ensures sender.outgoing == if old(sender.flightHasReply) then [] else old(sender.outgoing)
    ensures !old(sender.flightHasReply) ==> sender.Here() == old(sender.Here()) && sender.complete == old(sender.complete)
  {
    hide SentOk, RecordWriter.Valid;
    sender.timer.Stop();
    if sender.flightHasReply {
      sender.ClearOutgoing();
    }
  }
}
