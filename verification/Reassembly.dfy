/**
 * The receiver and the default handler together, over all runs.
 */
module Reassembly {
  import opened Bytes
  import opened ReceiveSpec
  import opened ReceiveSafety
  import opened Handlers
  import opened Connection

  lemma {:induction false} RunShutsOnce(chunks: seq<seq<byte>>)
    ensures ShutsOnce(INITIAL, ReceiveAll(INITIAL, chunks))
  {
    if chunks != [] {
      var n := |chunks| - 1;
      var before := ReceiveAll(INITIAL, chunks[..n]);
      var last := Receive(before.next, chunks[n]);
      RunShutsOnce(chunks[..n]);
      ReceiveShuts(before.next, chunks[n]);
      hide Receive, Closable, Wf;
      if before.next.Closed? {
        ReceiveUnfold(before.next, chunks[n]);
        assert before.events + [] == before.events;
      } else {
        ThenShuts(INITIAL, before, last);
      }
    }
  }

  /** For any octets in any pieces, the default handler reports exactly the messages of the
      reference, once each and whole, whatever comes between their fragments. */
  method Replay(chunks: seq<seq<byte>>) returns (handler: DefaultHandler)
    ensures handler.delivered == MessagesOf(DeliverAll(NOTHING, ReceiveAll(INITIAL, chunks).events).out)
  {
    var events := ReceiveAll(INITIAL, chunks).events;
    ReceiveAllKeeps(INITIAL, chunks);
    RunShutsOnce(chunks);
    hide ReceiveAll, AllAllowed, Wf;
    handler := new DefaultHandler();
    handler.HandleAll(events);
  }
}
